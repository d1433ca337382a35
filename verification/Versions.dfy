// core/rpc.go, NextVersion: concurrent callers drawing versions from one counter
// by compare-and-swap.
module Versions {
  import opened Commands

  const MAX: U64 := 0xFFFF_FFFF_FFFF_FFFF

  // The version a caller tries to install after reading the counter and the clock.
  function Candidate(cur: U64, now: U64): U64 {
    if now <= cur then (if cur == MAX then 0 else cur + 1) else now
  }

  // A caller is between its load of the counter and its swap, or not in a call.
  datatype Caller = Idle | Loaded(cur: U64, cand: U64)

  // Versions are recorded in the order their swaps succeeded.
  datatype State = State(counter: U64, callers: map<nat, Caller>, issued: seq<U64>)

  datatype Event = Load(id: nat, now: U64) | Swap(id: nat)

  ghost predicate Start(s: State) {
    s.issued == [] && forall c :: c in s.callers ==> s.callers[c].Idle?
  }

  // A swap succeeds only if the counter still has the value that was loaded;
  // otherwise the caller starts over.
  ghost predicate Next(s: State, e: Event, t: State) {
    match e
    case Load(c, now) =>
      && c in s.callers
      && t == s.(callers := s.callers[c := Loaded(s.counter, Candidate(s.counter, now))])
    case Swap(c) =>
      && c in s.callers && s.callers[c].Loaded?
      && t == if s.counter == s.callers[c].cur
              then s.(counter := s.callers[c].cand, callers := s.callers[c := Idle], issued := s.issued + [s.callers[c].cand])
              else s.(callers := s.callers[c := Idle])
  }

  ghost predicate Run(ss: seq<State>, es: seq<Event>) {
    && |ss| == |es| + 1 && Start(ss[0])
    && forall i :: 0 <= i < |es| ==> Next(ss[i], es[i], ss[i + 1])
  }

  // Every issued version, and every version about to be, was built from the
  // counter value it replaces.
  ghost predicate Inv(s: State, wrapped: bool) {
    && (forall c :: c in s.callers && s.callers[c].Loaded? ==>
          s.callers[c].cand > s.callers[c].cur || (s.callers[c].cur == MAX && s.callers[c].cand == 0))
    && (s.issued != [] ==> s.counter == s.issued[|s.issued| - 1])
    && (!wrapped ==> forall i, j :: 0 <= i < j < |s.issued| ==> s.issued[i] < s.issued[j])
  }

  // Some swap so far was made with the counter at its maximum.
  ghost predicate Wrapped(ss: seq<State>, es: seq<Event>, n: nat)
    requires n <= |es| && |ss| == |es| + 1
  {
    exists i :: 0 <= i < n && ss[i].counter == MAX && ss[i + 1].issued != ss[i].issued
  }

  // However calls interleave, until the counter passes its maximum the versions
  // handed out strictly increase, so no two writes of a node share one.
  lemma {:induction false} VersionsIncrease(ss: seq<State>, es: seq<Event>, n: nat)
    requires Run(ss, es) && n < |ss|
    ensures Inv(ss[n], Wrapped(ss, es, n))
  {
    if n > 0 {
      VersionsIncrease(ss, es, n - 1);
      assert Next(ss[n - 1], es[n - 1], ss[n]);
      var s, t := ss[n - 1], ss[n];
      if !Wrapped(ss, es, n) {
        assert !Wrapped(ss, es, n - 1);
        assert !(s.counter == MAX && t.issued != s.issued);
      }
    }
  }

  // In every run a call that gets a version gets one above the counter exactly
  // when the counter was not at its maximum; there it starts over from zero.
  lemma {:induction false} IncreasesExactlyBelowMax(ss: seq<State>, es: seq<Event>, n: nat)
    requires Run(ss, es) && n < |es| && ss[n + 1].issued != ss[n].issued
    ensures ss[n + 1].counter > ss[n].counter <==> ss[n].counter != MAX
    ensures ss[n].counter == MAX ==> ss[n + 1].issued == ss[n].issued + [0]
  {
    VersionsIncrease(ss, es, n);
    assert Next(ss[n], es[n], ss[n + 1]);
  }

  predicate Fits(cur: U64, now: U64, v: U64) {
    v > cur && v >= now
  }

  // v is the smallest version above the counter that the clock has not passed.
  ghost predicate NextAfter(cur: U64, now: U64, v: U64) {
    Fits(cur, now, v) && forall x: U64 :: Fits(cur, now, x) ==> v <= x
  }

  lemma {:induction false} CandidateIsNext(cur: U64, now: U64)
    requires cur < MAX
    ensures NextAfter(cur, now, Candidate(cur, now)) && (now > cur ==> Candidate(cur, now) == now)
  {}

  ghost predicate Concerns(e: Event, c: nat) {
    e.id == c
  }

  // A caller that does nothing keeps what it loaded.
  lemma {:induction false} LoadIsKept(ss: seq<State>, es: seq<Event>, c: nat, i: nat, j: nat)
    requires Run(ss, es) && i < j <= |es| && es[i].Load? && es[i].id == c
    requires forall k :: i < k < j ==> !Concerns(es[k], c)
    ensures c in ss[j].callers && ss[j].callers[c] == Loaded(ss[i].counter, Candidate(ss[i].counter, es[i].now))
    decreases j
  {
    assert Next(ss[j - 1], es[j - 1], ss[j]);
    if i < j - 1 {
      LoadIsKept(ss, es, c, i, j - 1);
      assert !Concerns(es[j - 1], c);
    }
  }

  // A call that read the clock at i and gets a version at j, below the maximum,
  // gets the smallest one above the counter that its clock has not passed, so the
  // clock itself if that is ahead.
  lemma {:induction false} CallGetsClockOrNext(ss: seq<State>, es: seq<Event>, c: nat, i: nat, j: nat)
    requires Run(ss, es) && i < j < |es| && es[i].Load? && es[i].id == c && es[j] == Swap(c)
    requires forall k :: i < k < j ==> !Concerns(es[k], c)
    requires ss[j + 1].issued != ss[j].issued && ss[j].counter < MAX
    ensures exists v :: NextAfter(ss[j].counter, es[i].now, v) && ss[j + 1].issued == ss[j].issued + [v] && ss[j + 1].counter == v
    ensures es[i].now > ss[j].counter ==> ss[j + 1].counter == es[i].now
  {
    LoadIsKept(ss, es, c, i, j);
    assert Next(ss[j], es[j], ss[j + 1]);
    CandidateIsNext(ss[j].counter, es[i].now);
  }
}
