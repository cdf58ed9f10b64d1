/**
 * StaggeredDelimiterProcessor: several processors for one delimiter character, told apart by
 * their minimum run length. The list is kept in strictly decreasing minimum-length order; a
 * run is handed to the first processor whose minimum it reaches, else to the first one.
 */
module Staggered {
  import opened Wrappers
  import opened Processors

  predicate StrictlyDecreasing(ps: seq<DelimiterProcessor>)
  {
    forall i, j :: 0 <= i < j < |ps| ==> ps[i].minLength > ps[j].minLength
  }

  /**
   * add(dp) as a value: dp goes in front of the first processor with a smaller minimum
   * length; meeting one with the same minimum length first is the conflict the source raises
   * (carrying that processor); reaching the end appends dp.
   */
  function Insert(ps: seq<DelimiterProcessor>, dp: DelimiterProcessor): Result<seq<DelimiterProcessor>, DelimiterProcessor>
  {
    if ps == [] then Success([dp])
    else if dp.minLength > ps[0].minLength then Success([dp] + ps)
    else if dp.minLength == ps[0].minLength then Failure(ps[0])
    else
      match Insert(ps[1..], dp)
      case Success(rest) => Success([ps[0]] + rest)
      case Failure(p) => Failure(p)
  }

  /** getMinLength(): the minimum length of the last (smallest) processor, 0 before any add. */
  function MinLengthOf(ps: seq<DelimiterProcessor>): nat
  {
    if ps == [] then 0 else ps[|ps| - 1].minLength
  }

  /** The first processor whose minimum length is at most len, if any. */
  function FirstAtMost(ps: seq<DelimiterProcessor>, len: nat): Option<DelimiterProcessor>
  {
    if ps == [] then None
    else if ps[0].minLength <= len then Some(ps[0])
    else FirstAtMost(ps[1..], len)
  }

  /** findProcessor(len): the first processor whose minimum length is at most len, else the first. */
  function FindProcessorIn(ps: seq<DelimiterProcessor>, len: nat): DelimiterProcessor
    requires ps != []
  {
    match FirstAtMost(ps, len)
    case Some(p) => p
    case None => ps[0]
  }

  /** Inserting keeps every processor and adds dp, and nothing else. */
  lemma {:induction false} InsertPermutation(ps: seq<DelimiterProcessor>, dp: DelimiterProcessor)
    requires Insert(ps, dp).Success?
    ensures multiset(Insert(ps, dp).value) == multiset(ps) + multiset{dp}
  {
    if ps != [] && dp.minLength < ps[0].minLength {
      InsertPermutation(ps[1..], dp);
      assert ps == [ps[0]] + ps[1..];
    }
  }

  /** Every processor of the result is below m when dp and every processor of ps are. */
  lemma {:induction false} InsertBelow(ps: seq<DelimiterProcessor>, dp: DelimiterProcessor, m: nat)
    requires Insert(ps, dp).Success?
    requires dp.minLength < m && forall k :: 0 <= k < |ps| ==> ps[k].minLength < m
    ensures forall k :: 0 <= k < |Insert(ps, dp).value| ==> Insert(ps, dp).value[k].minLength < m
  {
    if ps != [] && dp.minLength < ps[0].minLength {
      InsertBelow(ps[1..], dp, m);
    }
  }

  /** Inserting into a strictly decreasing list keeps it strictly decreasing. */
  lemma {:induction false} InsertSorted(ps: seq<DelimiterProcessor>, dp: DelimiterProcessor)
    requires StrictlyDecreasing(ps) && Insert(ps, dp).Success?
    ensures StrictlyDecreasing(Insert(ps, dp).value)
  {
    if ps != [] && dp.minLength < ps[0].minLength {
      var rest := Insert(ps[1..], dp).value;
      InsertSorted(ps[1..], dp);
      InsertBelow(ps[1..], dp, ps[0].minLength);
      var r := [ps[0]] + rest;
      assert r == Insert(ps, dp).value;
      forall i, j | 0 <= i < j < |r| ensures r[i].minLength > r[j].minLength {
        assert r[j] == rest[j - 1];
        if i > 0 {
          assert r[i] == rest[i - 1];
        }
      }
    }
  }

  /**
   * Adding conflicts exactly when a processor with the same minimum length is already
   * present, and the conflict names that processor.
   */
  lemma {:induction false} InsertConflict(ps: seq<DelimiterProcessor>, dp: DelimiterProcessor)
    requires StrictlyDecreasing(ps)
    ensures Insert(ps, dp).Failure? <==> exists p :: p in ps && p.minLength == dp.minLength
    ensures Insert(ps, dp).Failure? ==> Insert(ps, dp).error in ps && Insert(ps, dp).error.minLength == dp.minLength
  {
    if ps == [] {
    } else if dp.minLength > ps[0].minLength {
      forall p | p in ps ensures p.minLength != dp.minLength {
        var k :| 0 <= k < |ps| && ps[k] == p;
        assert k == 0 || ps[0].minLength > ps[k].minLength;
      }
    } else if dp.minLength < ps[0].minLength {
      InsertConflict(ps[1..], dp);
      assert ps == [ps[0]] + ps[1..];
    }
  }

  /** After an insertion the minimum length is that of dp or the old one, whichever is smaller. */
  lemma {:induction false} InsertMinLength(ps: seq<DelimiterProcessor>, dp: DelimiterProcessor)
    requires StrictlyDecreasing(ps) && Insert(ps, dp).Success?
    ensures MinLengthOf(Insert(ps, dp).value) ==
      if ps == [] || dp.minLength < MinLengthOf(ps) then dp.minLength else MinLengthOf(ps)
  {
    if ps != [] && dp.minLength < ps[0].minLength {
      InsertMinLength(ps[1..], dp);
      if |ps| > 1 {
        assert MinLengthOf(ps[1..]) == MinLengthOf(ps);
      }
    } else if ps != [] {
      assert |ps| == 1 || ps[0].minLength > ps[|ps| - 1].minLength;
    }
  }

  /** getMinLength(): in a strictly decreasing list, the last minimum length is the smallest one
      and belongs to a processor of the list. */
  lemma MinLengthIsSmallest(ps: seq<DelimiterProcessor>)
    requires StrictlyDecreasing(ps) && ps != []
    ensures exists p :: p in ps && p.minLength == MinLengthOf(ps)
    ensures forall p :: p in ps ==> MinLengthOf(ps) <= p.minLength
  {
    assert ps[|ps| - 1] in ps;
    forall p | p in ps ensures MinLengthOf(ps) <= p.minLength {
      var k :| 0 <= k < |ps| && ps[k] == p;
      assert k == |ps| - 1 || ps[k].minLength > ps[|ps| - 1].minLength;
    }
  }

  /**
   * In a strictly decreasing list, the processor chosen for a run of length len is the one with
   * the largest minimum length not above len; when every minimum is above len it is the first.
   */
  lemma {:induction false} FindProcessorBestFit(ps: seq<DelimiterProcessor>, len: nat)
    requires StrictlyDecreasing(ps) && ps != []
    ensures FindProcessorIn(ps, len) in ps
    ensures FindProcessorIn(ps, len).minLength <= len ==>
      forall q :: q in ps && q.minLength <= len ==> q.minLength <= FindProcessorIn(ps, len).minLength
    ensures FindProcessorIn(ps, len).minLength > len ==>
      FindProcessorIn(ps, len) == ps[0] && forall q :: q in ps ==> q.minLength > len
  {
    FirstAtMostSound(ps, len);
  }

  lemma {:induction false} FirstAtMostSound(ps: seq<DelimiterProcessor>, len: nat)
    requires StrictlyDecreasing(ps)
    ensures FirstAtMost(ps, len).Some? ==>
      FirstAtMost(ps, len).value in ps && FirstAtMost(ps, len).value.minLength <= len &&
      forall q :: q in ps && q.minLength <= len ==> q.minLength <= FirstAtMost(ps, len).value.minLength
    ensures FirstAtMost(ps, len).None? ==> forall q :: q in ps ==> q.minLength > len
  {
    if ps == [] {
    } else if ps[0].minLength <= len {
      forall q | q in ps ensures q.minLength <= ps[0].minLength {
        var k :| 0 <= k < |ps| && ps[k] == q;
        assert k == 0 || ps[0].minLength > ps[k].minLength;
      }
    } else {
      FirstAtMostSound(ps[1..], len);
      assert ps == [ps[0]] + ps[1..];
    }
  }

  /** The first i processors all have a larger minimum length than dp: insertion skips them. */
  lemma {:induction false} InsertSkip(ps: seq<DelimiterProcessor>, i: nat, dp: DelimiterProcessor)
    requires i <= |ps|
    requires forall k :: 0 <= k < i ==> ps[k].minLength > dp.minLength
    ensures Insert(ps, dp) ==
      match Insert(ps[i..], dp)
      case Success(rest) => Success(ps[..i] + rest)
      case Failure(p) => Failure(p)
  {
    if i > 0 {
      InsertSkip(ps[1..], i - 1, dp);
      assert ps[1..][i - 1..] == ps[i..];
      match Insert(ps[i..], dp)
      case Success(rest) =>
        assert ps[..i] + rest == [ps[0]] + (ps[1..][..i - 1] + rest);
      case Failure(_) =>
    } else {
      assert ps[0..] == ps;
      match Insert(ps, dp)
      case Success(rest) =>
        assert ps[..0] + rest == rest;
      case Failure(_) =>
    }
  }

  /** Where add(dp) stops: in front of ps[i], or at the end. */
  lemma InsertAt(ps: seq<DelimiterProcessor>, i: nat, dp: DelimiterProcessor)
    requires i <= |ps|
    requires forall k :: 0 <= k < i ==> ps[k].minLength > dp.minLength
    requires i == |ps| || ps[i].minLength < dp.minLength
    ensures Insert(ps, dp) == Success(ps[..i] + [dp] + ps[i..])
  {
    InsertSkip(ps, i, dp);
    if i == |ps| {
      assert ps[i..] == [] && [dp] + ps[i..] == [dp];
    }
    assert Insert(ps[i..], dp) == Success([dp] + ps[i..]);
    assert ps[..i] + ([dp] + ps[i..]) == ps[..i] + [dp] + ps[i..];
  }

  /** Where add(dp) fails: at ps[i], of the same minimum length. */
  lemma ConflictAt(ps: seq<DelimiterProcessor>, i: nat, dp: DelimiterProcessor)
    requires i < |ps|
    requires forall k :: 0 <= k < i ==> ps[k].minLength > dp.minLength
    requires ps[i].minLength == dp.minLength
    ensures Insert(ps, dp) == Failure(ps[i])
  {
    InsertSkip(ps, i, dp);
  }

  /** The first i processors all have a larger minimum length than len: the search skips them. */
  lemma {:induction false} FirstAtMostSkip(ps: seq<DelimiterProcessor>, i: nat, len: nat)
    requires i <= |ps|
    requires forall k :: 0 <= k < i ==> ps[k].minLength > len
    ensures FirstAtMost(ps, len) == FirstAtMost(ps[i..], len)
  {
    if i > 0 {
      FirstAtMostSkip(ps[1..], i - 1, len);
      assert ps[1..][i - 1..] == ps[i..];
    }
  }

  class StaggeredDelimiterProcessor {
    const delim: char
    var minLength: nat
    /** In strictly decreasing minimum-length order. */
    var processors: seq<DelimiterProcessor>

    ghost predicate Valid()
      reads this
    {
      StrictlyDecreasing(processors) && minLength == MinLengthOf(processors)
    }

    constructor (delim: char)
      ensures Valid() && this.delim == delim && processors == [] && minLength == 0
    {
      this.delim := delim;
      minLength := 0;
      processors := [];
    }

    /**
     * add(dp): insert dp before the first processor with a smaller minimum length, or append it
     * and take its minimum length as the processor's own. A processor with the same minimum
     * length met first is a conflict: it is returned and nothing changes.
     */
    method Add(dp: DelimiterProcessor) returns (conflict: Option<DelimiterProcessor>)
      requires Valid()
      modifies this`minLength, this`processors
      ensures Valid()
      ensures Insert(old(processors), dp).Success? ==>
        conflict == None && processors == Insert(old(processors), dp).value
      ensures Insert(old(processors), dp).Failure? ==>
        conflict == Some(Insert(old(processors), dp).error) &&
        processors == old(processors) && minLength == old(minLength)
    {
      var len := dp.minLength;
      var i := 0;
      while i < |processors|
        invariant 0 <= i <= |processors|
        invariant forall k :: 0 <= k < i ==> processors[k].minLength > len
        decreases |processors| - i
      {
        var p := processors[i];
        if len > p.minLength {
          InsertAt(processors, i, dp);
          InsertSorted(processors, dp);
          processors := processors[..i] + [dp] + processors[i..];
          return None;
        } else if len == p.minLength {
          ConflictAt(processors, i, dp);
          return Some(p);
        }
        i := i + 1;
      }
      InsertAt(processors, i, dp);
      InsertSorted(processors, dp);
      assert processors[..i] + [dp] + processors[i..] == processors + [dp];
      processors := processors + [dp];
      minLength := len;
      return None;
    }

    /** findProcessor(len). The source reads the first element, so the list must not be empty. */
    method FindProcessor(len: nat) returns (p: DelimiterProcessor)
      requires processors != []
      ensures p == FindProcessorIn(processors, len)
    {
      var i := 0;
      while i < |processors|
        invariant 0 <= i <= |processors|
        invariant forall k :: 0 <= k < i ==> processors[k].minLength > len
        decreases |processors| - i
      {
        if processors[i].minLength <= len {
          FirstAtMostSkip(processors, i, len);
          return processors[i];
        }
        i := i + 1;
      }
      FirstAtMostSkip(processors, i, len);
      return processors[0];
    }

    /** process(opener, closer): delegate to the processor chosen for the opener's length. */
    method Process(opener: RunView, closer: RunView, process: ProcessFn) returns (used: nat)
      requires processors != []
      ensures used == process(FindProcessorIn(processors, opener.length).id, opener, closer)
    {
      var p := FindProcessor(opener.length);
      used := process(p.id, opener, closer);
    }
  }
}
