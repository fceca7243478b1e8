/** The required-field check: what the verdict of a decode depends on once every record is accepted. */
module Presence {
  import opened Basics
  import opened Varint
  import opened Descriptors
  import opened Decoding
  import opened WireRecords
  import opened Merging

  /** The entries whose tags occur as keys among the records the loop handles. */
  function Occurring(d: Desc, s: seq<Byte>, st: DState): set<nat>
    requires |st.m| == |d|
    decreases |s|
  {
    if s == [] then {}
    else
      match DecStep(d, s, st)
      case Next(st', n) => (if Target(d, s).Some? then {Target(d, s).value} else {}) + Occurring(d, s[n..], st')
      case _ => {}
  }

  /** Entry i is required and one of the first 64 that are. */
  predicate Checked(d: Desc, i: nat) {
    i < |d| && d[i].htype.Required? && RequiredBefore(d, i) < PB_MAX_REQUIRED_FIELDS
  }

  /** The required fields before entry i. */
  function RequiredEntries(d: Desc, i: nat): set<nat>
    requires i <= |d|
  {
    set k: nat | k < i && d[k].htype.Required?
  }

  /** The index the iterator counts is the number of required fields before it. */
  lemma {:induction false} RequiredBeforeIs(d: Desc, i: nat)
    requires i <= |d|
    ensures RequiredBefore(d, i) == |RequiredEntries(d, i)|
  {
    if i == 0 {
      assert RequiredEntries(d, 0) == {};
    } else {
      RequiredBeforeIs(d, i - 1);
      assert RequiredEntries(d, i) == RequiredEntries(d, i - 1) + (if d[i - 1].htype.Required? then {i - 1} else {});
    }
  }

  lemma {:induction false} RequiredBeforeMono(d: Desc, i: nat, j: nat)
    requires i < j <= |d|
    ensures RequiredBefore(d, i) + (if d[i].htype.Required? then 1 else 0) <= RequiredBefore(d, j)
    decreases j
  {
    if i < j - 1 {
      RequiredBeforeMono(d, i, j - 1);
    }
  }

  /** The index the iterator counts identifies a required field. */
  lemma {:induction false} RequiredIndexUnique(d: Desc, i: nat, j: nat)
    requires i < |d| && j < |d| && d[i].htype.Required? && d[j].htype.Required?
    requires RequiredBefore(d, i) == RequiredBefore(d, j)
    ensures i == j
  {
    if i < j {
      RequiredBeforeMono(d, i, j);
    } else if j < i {
      RequiredBeforeMono(d, j, i);
    }
  }

  lemma {:induction false} NthRequired(d: Desc, n: nat, k: nat) returns (i: nat)
    requires n <= |d| && k < RequiredBefore(d, n)
    ensures i < n && d[i].htype.Required? && RequiredBefore(d, i) == k
    decreases n
  {
    if RequiredBefore(d, n - 1) <= k {
      i := n - 1;
    } else {
      i := NthRequired(d, n - 1, k);
    }
  }

  lemma {:induction false} StepSeen(d: Desc, s: seq<Byte>, st: DState)
    requires |st.m| == |d| && DecStep(d, s, st).Next?
    ensures DecStep(d, s, st).st.seen == st.seen + (if Target(d, s).Some? then Marks(d, Target(d, s).value) else {})
  {
    hide DecVarint32, DecField;
    assert st.seen + {} == st.seen;
    if Target(d, s).Some? {
      StepOfTarget(d, s, st);
      FieldSeen(d, Target(d, s).value, DecVarint32(s).val % 8, s[DecVarint32(s).used..], st);
    }
  }

  lemma {:induction false} FieldSeen(d: Desc, i: nat, wt: nat, s: seq<Byte>, st: DState)
    requires i < |d| && |st.m| == |d| && DecField(d, i, wt, s, st).Next?
    ensures DecField(d, i, wt, s, st).st.seen == st.seen + Marks(d, i)
  {
    hide DecSlot;
    assert st.seen + {} == st.seen;
  }

  /** A required field counts as seen exactly when its tag occurred. */
  lemma {:induction false} SeenIffOccurring(d: Desc, s: seq<Byte>, st: DState, i: nat)
    requires |st.m| == |d| && Checked(d, i) && Run(d, s, st).Done?
    ensures RequiredBefore(d, i) in Run(d, s, st).st.seen <==>
            RequiredBefore(d, i) in st.seen || i in Occurring(d, s, st)
    decreases |s|
  {
    hide DecStep, Target, RequiredBefore;
    if s != [] && DecStep(d, s, st).Next? {
      StepSeen(d, s, st);
      if Target(d, s).Some? && Checked(d, Target(d, s).value) &&
          RequiredBefore(d, Target(d, s).value) == RequiredBefore(d, i) {
        RequiredIndexUnique(d, i, Target(d, s).value);
      }
      SeenIffOccurring(d, s[DecStep(d, s, st).used..], DecStep(d, s, st).st, i);
    }
  }

  /**
   * When the loop accepts every record and the last fixed-count array is complete, the decode
   * succeeds if and only if each of the first 64 required fields occurred at least once; the
   * order of the records plays no part.
   */
  lemma {:induction false} RequiredCheck(d: Desc, s: seq<Byte>, m: Msg)
    requires |m| == |d| && Run(d, s, Start(m)).Done? && FixedComplete(d, Run(d, s, Start(m)).st)
    ensures DecodeNoinit(d, s, m).Read? <==> forall i :: 0 <= i < |d| && Checked(d, i) ==>
            i in Occurring(d, s, Start(m))
  {
    hide Run, Occurring;
    var st := Run(d, s, Start(m)).st;
    if AllSeen(d, st) {
      forall i | 0 <= i < |d| && Checked(d, i)
        ensures i in Occurring(d, s, Start(m))
      {
        SeenIffOccurring(d, s, Start(m), i);
        RequiredBeforeMono(d, i, |d|);
        assert RequiredBefore(d, i) in st.seen;
      }
    } else {
      var k :| 0 <= k < Tracked(d) && k !in st.seen;
      var i := NthRequired(d, |d|, k);
      SeenIffOccurring(d, s, Start(m), i);
      assert Checked(d, i);
    }
  }

  /** Only tracked indices are ever marked. */
  ghost predicate SeenTracked(d: Desc, seen: set<nat>) {
    forall k :: k in seen ==> k < Tracked(d)
  }

  lemma {:induction false} MarksTracked(d: Desc, i: nat)
    requires i < |d|
    ensures SeenTracked(d, Marks(d, i))
  {
    RequiredBeforeMono(d, i, |d|);
  }

  lemma {:induction false} RunSeenTracked(d: Desc, s: seq<Byte>, st: DState)
    requires |st.m| == |d| && SeenTracked(d, st.seen) && Run(d, s, st).Done?
    ensures SeenTracked(d, Run(d, s, st).st.seen)
    decreases |s|
  {
    hide DecStep, Target, Marks, Tracked;
    if s != [] && DecStep(d, s, st).Next? {
      StepSeen(d, s, st);
      if Target(d, s).Some? {
        MarksTracked(d, Target(d, s).value);
      }
      RunSeenTracked(d, s[DecStep(d, s, st).used..], DecStep(d, s, st).st);
    }
  }
}
