/**
 * The delimiter-processor table of the inline parser (calculateDelimiterProcessors,
 * addDelimiterProcessors, addDelimiterProcessorForChar) and the set of characters that
 * interrupt plain text (calculateSpecialCharacters).
 */
module Registry {
  import opened Wrappers
  import opened Processors
  import opened Staggered

  /**
   * What the table holds for a character: one processor, or a staggered group of processors
   * that share the character on both sides (a StaggeredDelimiterProcessor, held as its list).
   */
  datatype Registered =
    | Single(processor: DelimiterProcessor)
    | StaggeredGroup(delim: char, processors: seq<DelimiterProcessor>)
  {
    function Opening(): char
    {
      if Single? then processor.opening else delim
    }

    function Closing(): char
    {
      if Single? then processor.closing else delim
    }

    function MinLength(): nat
    {
      if Single? then processor.minLength else MinLengthOf(processors)
    }
  }

  /** The two ways building the table fails (both are IllegalArgumentException in the source). */
  datatype ConfigError =
    | DelimiterConflict(c: char)
    | MinLengthConflict(delim: char, minLength: nat)

  type Table = map<char, Registered>

  /** addDelimiterProcessorForChar: the character must not be taken yet. */
  function AddForChar(m: Table, c: char, r: Registered): Result<Table, ConfigError>
  {
    if c in m then Failure(DelimiterConflict(c)) else Success(m[c := r])
  }

  /** The group a new processor for an already symmetric entry joins. */
  function GroupOf(existing: Registered): seq<DelimiterProcessor>
  {
    match existing
    case StaggeredGroup(_, ps) => ps
    case Single(p) => [p]
  }

  /** One iteration of addDelimiterProcessors. */
  function AddProcessor(m: Table, dp: DelimiterProcessor): Result<Table, ConfigError>
  {
    if dp.opening == dp.closing then
      if dp.opening in m && m[dp.opening].Opening() == m[dp.opening].Closing() then
        match Insert(GroupOf(m[dp.opening]), dp)
        case Success(ps) => Success(m[dp.opening := StaggeredGroup(dp.opening, ps)])
        case Failure(_) => Failure(MinLengthConflict(dp.opening, dp.minLength))
      else
        AddForChar(m, dp.opening, Single(dp))
    else
      match AddForChar(m, dp.opening, Single(dp))
      case Success(m1) => AddForChar(m1, dp.closing, Single(dp))
      case Failure(e) => Failure(e)
  }

  /** addDelimiterProcessors: the processors in order, stopping at the first conflict. */
  function AddAll(m: Table, dps: seq<DelimiterProcessor>): Result<Table, ConfigError>
    decreases dps
  {
    if dps == [] then Success(m)
    else
      match AddProcessor(m, dps[0])
      case Success(m1) => AddAll(m1, dps[1..])
      case Failure(e) => Failure(e)
  }

  /** The built-in processors, registered before the custom ones. */
  const BuiltIns: seq<DelimiterProcessor> := [Asterisk, Underscore]

  /** Every entry sits under a character it uses; a group is a valid staggered list for it. */
  ghost predicate WellFormed(m: Table)
  {
    forall c :: c in m ==> WellFormedEntry(c, m[c])
  }

  ghost predicate WellFormedEntry(c: char, r: Registered)
  {
    match r
    case Single(p) => p.opening == c || p.closing == c
    case StaggeredGroup(d, ps) =>
      d == c && |ps| >= 2 && StrictlyDecreasing(ps) &&
      forall p :: p in ps ==> p.opening == d && p.closing == d
  }

  /** The entry holds dp. */
  predicate Holds(r: Registered, dp: DelimiterProcessor)
  {
    match r
    case Single(p) => p == dp
    case StaggeredGroup(_, ps) => dp in ps
  }

  /** The characters a processor is registered under. */
  function CharsOf(dps: seq<DelimiterProcessor>): set<char>
  {
    (set i | 0 <= i < |dps| :: dps[i].opening) + (set i | 0 <= i < |dps| :: dps[i].closing)
  }

  /**
   * A staggered group answers for its character on both sides (getOpeningCharacter and
   * getClosingCharacter both give delim), and so does every processor in it.
   */
  lemma GroupCharacters(m: Table, c: char)
    requires WellFormed(m) && c in m && m[c].StaggeredGroup?
    ensures m[c].Opening() == c && m[c].Closing() == c
    ensures forall p :: Holds(m[c], p) ==> p.opening == c && p.closing == c
  {
    assert WellFormedEntry(c, m[c]);
  }

  /**
   * One registration keeps the table well formed, registers dp under both of its characters,
   * keeps every processor already registered, and adds no other character.
   */
  lemma AddProcessorSound(m: Table, dp: DelimiterProcessor)
    requires WellFormed(m)
    requires AddProcessor(m, dp).Success?
    ensures var m1 := AddProcessor(m, dp).value;
      WellFormed(m1) &&
      m1.Keys == m.Keys + {dp.opening, dp.closing} &&
      Holds(m1[dp.opening], dp) && Holds(m1[dp.closing], dp) &&
      forall c, q :: c in m && Holds(m[c], q) ==> Holds(m1[c], q)
  {
    var m1 := AddProcessor(m, dp).value;
    if dp.opening == dp.closing && dp.opening in m && m[dp.opening].Opening() == m[dp.opening].Closing() {
      var group := GroupOf(m[dp.opening]);
      var ps := Insert(group, dp).value;
      assert StrictlyDecreasing(group);
      InsertSorted(group, dp);
      InsertPermutation(group, dp);
      assert |ps| == |group| + 1 by {
        assert |multiset(ps)| == |multiset(group)| + 1;
      }
      assert dp in ps by {
        assert dp in multiset(ps);
      }
      forall q | q in group ensures q in ps && q.opening == dp.opening && q.closing == dp.opening {
        assert q in multiset(ps);
      }
      forall p | p in ps ensures p.opening == dp.opening && p.closing == dp.opening {
        assert p in multiset(ps);
        assert p == dp || p in multiset(group);
      }
      assert WellFormedEntry(dp.opening, m1[dp.opening]);
    }
  }

  /** The characters of a list are those of its head and those of its tail. */
  lemma CharsOfCons(dps: seq<DelimiterProcessor>)
    requires dps != []
    ensures CharsOf(dps) == {dps[0].opening, dps[0].closing} + CharsOf(dps[1..])
  {
    forall c | c in CharsOf(dps) ensures c in {dps[0].opening, dps[0].closing} + CharsOf(dps[1..]) {
      var i :| 0 <= i < |dps| && (dps[i].opening == c || dps[i].closing == c);
      if i > 0 {
        assert dps[1..][i - 1] == dps[i];
      }
    }
    forall c | c in CharsOf(dps[1..]) ensures c in CharsOf(dps) {
      var i :| 0 <= i < |dps[1..]| && (dps[1..][i].opening == c || dps[1..][i].closing == c);
      assert dps[1..][i] == dps[i + 1];
    }
  }

  /**
   * Registering a list keeps the table well formed, registers exactly the characters the
   * processors use, and loses no processor: each one stays reachable from its characters.
   */
  lemma {:induction false} AddAllSound(m: Table, dps: seq<DelimiterProcessor>)
    requires WellFormed(m)
    requires AddAll(m, dps).Success?
    ensures var r := AddAll(m, dps).value;
      WellFormed(r) &&
      r.Keys == m.Keys + CharsOf(dps) &&
      (forall c, q :: c in m && Holds(m[c], q) ==> Holds(r[c], q)) &&
      (forall i :: 0 <= i < |dps| ==> Holds(r[dps[i].opening], dps[i]) && Holds(r[dps[i].closing], dps[i]))
    decreases dps
  {
    if dps != [] {
      var m1 := AddProcessor(m, dps[0]).value;
      AddProcessorSound(m, dps[0]);
      AddAllSound(m1, dps[1..]);
      CharsOfCons(dps);
      var r := AddAll(m, dps).value;
      assert r == AddAll(m1, dps[1..]).value;
      forall i | 0 <= i < |dps| ensures Holds(r[dps[i].opening], dps[i]) && Holds(r[dps[i].closing], dps[i]) {
        if i > 0 {
          assert dps[1..][i - 1] == dps[i];
        }
      }
    }
  }

  /**
   * A symmetric processor never conflicts on its character when the entry there is
   * symmetric too: it joins (or forms) the staggered group, failing only on a repeated
   * minimum length.
   */
  lemma SymmetricConflict(m: Table, dp: DelimiterProcessor)
    requires WellFormed(m)
    requires dp.opening == dp.closing && dp.opening in m
    requires m[dp.opening].Opening() == m[dp.opening].Closing()
    ensures AddProcessor(m, dp).Failure? <==>
      exists q :: Holds(m[dp.opening], q) && q.minLength == dp.minLength
    ensures AddProcessor(m, dp).Failure? ==> AddProcessor(m, dp).error == MinLengthConflict(dp.opening, dp.minLength)
  {
    var group := GroupOf(m[dp.opening]);
    InsertConflict(group, dp);
    forall q ensures Holds(m[dp.opening], q) <==> q in group {
    }
  }

  /** An asymmetric processor, or one meeting an asymmetric entry, needs its characters free. */
  lemma CharacterConflict(m: Table, dp: DelimiterProcessor)
    requires dp.opening != dp.closing || dp.opening !in m || m[dp.opening].Opening() != m[dp.opening].Closing()
    ensures AddProcessor(m, dp).Failure? <==> dp.opening in m || dp.closing in m
    ensures AddProcessor(m, dp).Failure? ==>
      AddProcessor(m, dp).error == DelimiterConflict(if dp.opening in m then dp.opening else dp.closing)
  {
  }

  /** Without custom processors the table holds exactly the two emphasis processors. */
  lemma DefaultTable()
    ensures AddAll(map[], BuiltIns) == Success(map['*' := Single(Asterisk), '_' := Single(Underscore)])
  {
    var m1 := map['*' := Single(Asterisk)];
    assert AddProcessor(map[], Asterisk) == Success(m1);
    assert BuiltIns[1..] == [Underscore];
    var m2 := m1['_' := Single(Underscore)];
    assert AddProcessor(m1, Underscore) == Success(m2);
    assert BuiltIns[1..][1..] == [];
    assert AddAll(m2, []) == Success(m2);
    assert AddAll(m1, [Underscore]) == Success(m2);
    assert m2 == map['*' := Single(Asterisk), '_' := Single(Underscore)];
  }

  /** addDelimiterProcessors: register each processor in turn into the table `m`. */
  method AddDelimiterProcessors(dps: seq<DelimiterProcessor>, m: Table) returns (r: Result<Table, ConfigError>)
    ensures r == AddAll(m, dps)
  {
    var table := m;
    for i := 0 to |dps|
      invariant AddAll(m, dps) == AddAll(table, dps[i..])
    {
      var dp := dps[i];
      assert dps[i..][1..] == dps[i + 1..];
      var opening := dp.opening;
      var closing := dp.closing;
      if opening == closing {
        if opening in table && table[opening].Opening() == table[opening].Closing() {
          var s := GroupOf(table[opening]);
          var added := Insert(s, dp);
          if added.Failure? {
            return Failure(MinLengthConflict(opening, dp.minLength));
          }
          table := table[opening := StaggeredGroup(opening, added.value)];
        } else {
          if opening in table {
            return Failure(DelimiterConflict(opening));
          }
          table := table[opening := Single(dp)];
        }
      } else {
        if opening in table {
          return Failure(DelimiterConflict(opening));
        }
        table := table[opening := Single(dp)];
        if closing in table {
          return Failure(DelimiterConflict(closing));
        }
        table := table[closing := Single(dp)];
      }
    }
    assert dps[|dps|..] == [];
    r := Success(table);
  }

  /** calculateDelimiterProcessors: the built-in processors, then the custom ones. */
  method CalculateDelimiterProcessors(custom: seq<DelimiterProcessor>) returns (r: Result<Table, ConfigError>)
    ensures r == AddAll(map['*' := Single(Asterisk), '_' := Single(Underscore)], custom)
    ensures r.Success? ==> WellFormed(r.value) && r.value.Keys == {'*', '_'} + CharsOf(custom)
  {
    var builtIn := AddDelimiterProcessors(BuiltIns, map[]);
    DefaultTable();
    r := AddDelimiterProcessors(custom, builtIn.value);
    if r.Success? {
      AddAllSound(builtIn.value, custom);
    }
  }

  /**
   * calculateSpecialCharacters: every delimiter character, every character an inline content
   * parser starts at, and '[', ']', '!' and the line feed.
   */
  method CalculateSpecialCharacters(delimiterCharacters: set<char>, characters: set<char>) returns (bits: set<char>)
    ensures forall c :: c in bits <==>
      c in delimiterCharacters || c in characters || c == '[' || c == ']' || c == '!' || c == '\n'
  {
    bits := {};
    var rest := delimiterCharacters;
    while rest != {}
      invariant rest <= delimiterCharacters && bits == delimiterCharacters - rest
      decreases rest
    {
      var c :| c in rest;
      bits := bits + {c};
      rest := rest - {c};
    }
    rest := characters;
    while rest != {}
      invariant rest <= characters && bits == delimiterCharacters + (characters - rest)
      decreases rest
    {
      var c :| c in rest;
      bits := bits + {c};
      rest := rest - {c};
    }
    bits := bits + {'[', ']', '!', '\n'};
  }
}
