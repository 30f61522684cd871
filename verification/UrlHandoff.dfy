// The two threads that pass URLs through one shared buffer: the sniffer copies a URL into it and
// unlocks a mutex, the writer locks the mutex and prints the buffer. The mutex is used as a
// binary semaphore: whoever unlocks it makes it free, whether or not it was held.
module UrlHandoff {
  import opened Bytes

  type url = seq<byte>

  /** An atomic step of one of the threads. */
  datatype Act = Copy(u: url) | Unlock | Lock | Print

  datatype State = State(
    // shared between the threads
    slot: url,
    free: bool,
    // where the threads are: between Copy and Unlock, between Lock and Print
    copied: bool,
    locked: bool,
    // what has happened
    appended: seq<url>,
    printed: seq<url>,
    // which URL each print printed, by position
    at: seq<int>,
    unlocks: nat,
    // unlocks that found the mutex free already
    merged: nat,
    // a URL was copied before the one before it had been passed on
    hasty: bool)
  {
    /** Steps on the way that will each lead to a print. */
    function Pending(): nat {
      (if copied then 1 else 0) + (if free then 1 else 0) + (if locked then 1 else 0)
    }

    predicate AtRest() {
      Pending() == 0
    }
  }

  /** main() locks the mutex before it starts the writer. */
  const INIT := State([], false, false, false, [], [], [], 0, 0, false)

  /** The state after a step, if the step can be taken: a held mutex blocks the writer. */
  function Next(s: State, a: Act): Option<State> {
    match a
    case Copy(u) =>
      if s.copied then None
      else Some(s.(slot := u, copied := true, appended := s.appended + [u], hasty := s.hasty || s.Pending() > 0))
    case Unlock =>
      if !s.copied then None
      else Some(s.(free := true, copied := false, unlocks := s.unlocks + 1,
                   merged := s.merged + if s.free then 1 else 0))
    case Lock =>
      if s.locked || !s.free then None
      else Some(s.(free := false, locked := true))
    case Print =>
      if !s.locked then None
      else Some(s.(locked := false, printed := s.printed + [s.slot], at := s.at + [|s.appended| - 1]))
  }

  /** The state after an interleaving of the two threads' steps, if it is one. */
  function After(acts: seq<Act>): Option<State> {
    if acts == [] then Some(INIT)
    else
      match After(acts[..|acts| - 1])
      case Some(s) => Next(s, acts[|acts| - 1])
      case None => None
  }

  // ------------------------------------------------- what every step keeps

  /** Counting: every unlock is printed, on its way to be, or was merged into another one. */
  ghost predicate Counted(s: State) {
    && s.unlocks + (if s.copied then 1 else 0) == |s.appended|
    && s.unlocks == |s.printed| + (if s.free then 1 else 0) + (if s.locked then 1 else 0) + s.merged
  }

  /** Every print printed the URL at its position, and positions never go back. */
  ghost predicate Traced(s: State) {
    && (s.appended != [] ==> s.slot == s.appended[|s.appended| - 1])
    && |s.at| == |s.printed|
    && (forall i :: 0 <= i < |s.at| ==> 0 <= s.at[i] < |s.appended| && s.printed[i] == s.appended[s.at[i]])
    && (forall i, j :: 0 <= i < j < |s.at| ==> s.at[i] <= s.at[j])
  }

  /** No URL is printed more than three times, counting for the latest what is on its way. */
  ghost predicate AtMostThrice(s: State) {
    && (forall p :: multiset(s.at)[p] <= 3)
    && (s.appended != [] ==> multiset(s.at)[|s.appended| - 1] + s.Pending() <= 3)
    && (forall p :: p >= |s.appended| ==> multiset(s.at)[p] == 0)
  }

  /** The latest URL is on its way or has been printed last. */
  ghost predicate LatestKept(s: State) {
    s.appended != [] ==>
      s.Pending() > 0 || (s.at != [] && s.at[|s.at| - 1] == |s.appended| - 1)
  }

  /** Until a copy was hasty, every URL but those on their way was printed once, in order; after a
      hasty copy some earlier URL is lost for good. */
  ghost predicate OrderKept(s: State) {
    && (!s.hasty ==> |s.at| + s.Pending() == |s.appended| && s.Pending() <= 1
                     && forall i :: 0 <= i < |s.at| ==> s.at[i] == i)
    && (s.hasty ==> exists p :: 0 <= p < |s.appended| - 1 && p !in s.at)
  }

  ghost predicate Inv(s: State) {
    Counted(s) && Traced(s) && AtMostThrice(s) && LatestKept(s) && OrderKept(s)
  }

  lemma StepKeepsCount(s: State, a: Act)
    requires Counted(s) && LatestKept(s) && Next(s, a).Some?
    ensures Counted(Next(s, a).value) && LatestKept(Next(s, a).value)
  {
  }

  lemma StepKeepsTrace(s: State, a: Act)
    requires Counted(s) && Traced(s) && Next(s, a).Some?
    ensures Traced(Next(s, a).value)
  {
    if a.Print? {
      var t := Next(s, a).value;
      assert forall i :: 0 <= i < |s.at| ==> t.at[i] == s.at[i] && t.printed[i] == s.printed[i];
    }
  }

  lemma StepKeepsThrice(s: State, a: Act)
    requires Counted(s) && AtMostThrice(s) && Next(s, a).Some?
    ensures AtMostThrice(Next(s, a).value)
  {
    if a.Print? {
      var last := |s.appended| - 1;
      var t := Next(s, a).value;
      assert multiset(t.at) == multiset(s.at)[last := multiset(s.at)[last] + 1];
    }
  }

  /** Once a URL is lost it stays lost. */
  lemma StepKeepsLoss(s: State, a: Act)
    requires Counted(s) && OrderKept(s) && s.hasty && Next(s, a).Some?
    ensures OrderKept(Next(s, a).value)
  {
    var t := Next(s, a).value;
    var p :| 0 <= p < |s.appended| - 1 && p !in s.at;
    assert 0 <= p < |t.appended| - 1 && p !in t.at;
  }

  /** A hasty copy loses the URL before it. */
  lemma StepKeepsOrder(s: State, a: Act)
    requires Counted(s) && OrderKept(s) && !s.hasty && Next(s, a).Some?
    ensures OrderKept(Next(s, a).value)
  {
    var t := Next(s, a).value;
    if t.hasty {
      var p: nat := |s.appended| - 1;
      assert 0 <= p < |t.appended| - 1 && p !in t.at;
    }
  }

  lemma {:induction false} InvOfRuns(acts: seq<Act>)
    requires After(acts).Some?
    ensures Inv(After(acts).value)
  {
    if acts != [] {
      hide Counted, Traced, AtMostThrice, LatestKept, OrderKept, Next;
      var s, a := After(acts[..|acts| - 1]).value, acts[|acts| - 1];
      InvOfRuns(acts[..|acts| - 1]);
      StepKeepsCount(s, a);
      StepKeepsTrace(s, a);
      StepKeepsThrice(s, a);
      if s.hasty {
        StepKeepsLoss(s, a);
      } else {
        StepKeepsOrder(s, a);
      }
    }
  }

  // ------------------------------------------------- what every interleaving guarantees

  /** Safety of every interleaving: no more prints than unlocks, and exactly as many as the unlocks
      that were neither merged nor are still on their way; every print is of an appended URL, in
      the order in which they were appended; and none is printed more than three times. */
  lemma HandoffSafe(acts: seq<Act>)
    requires After(acts).Some?
    ensures var s := After(acts).value;
            && |s.printed| <= s.unlocks <= |s.appended|
            && s.unlocks == |s.printed| + (if s.free then 1 else 0) + (if s.locked then 1 else 0) + s.merged
            && |s.at| == |s.printed|
            && (forall i :: 0 <= i < |s.at| ==> 0 <= s.at[i] < |s.appended| && s.printed[i] == s.appended[s.at[i]])
            && (forall i, j :: 0 <= i < j < |s.at| ==> s.at[i] <= s.at[j])
            && (forall p :: multiset(s.at)[p] <= 3)
  {
    InvOfRuns(acts);
  }

  /** No lost wakeup: when both threads have come to rest, the last URL printed is the last one
      appended. */
  lemma LatestIsPrinted(acts: seq<Act>)
    requires After(acts).Some? && After(acts).value.AtRest() && After(acts).value.appended != []
    ensures var s := After(acts).value;
            s.printed != [] && s.printed[|s.printed| - 1] == s.appended[|s.appended| - 1]
  {
    InvOfRuns(acts);
  }

  /** At rest, every URL has been printed exactly once and in order if and only if every copy waited
      until the URL before it had been printed. */
  lemma AllPrintedExactly(acts: seq<Act>)
    requires After(acts).Some? && After(acts).value.AtRest()
    ensures var s := After(acts).value;
            !s.hasty <==> |s.at| == |s.appended| && forall i :: 0 <= i < |s.at| ==> s.at[i] == i
  {
    InvOfRuns(acts);
    var s := After(acts).value;
    if s.hasty {
      var p :| 0 <= p < |s.appended| - 1 && p !in s.at;
      assert p < |s.at| ==> s.at[p] != p;
    }
  }

  lemma AfterThen(acts: seq<Act>, a: Act)
    ensures After(acts + [a]) == match After(acts) case Some(s) => Next(s, a) case None => None
  {
    assert (acts + [a])[..|acts|] == acts;
  }

  /** The bound of three is reached, and the first URL is never printed. */
  lemma ThreePrints(u: url, v: url, w: url)
    ensures var acts := [Copy(u), Unlock, Lock, Copy(v), Unlock, Copy(w), Print, Lock, Print, Unlock, Lock, Print];
            After(acts).Some? && After(acts).value.printed == [w, w, w] && After(acts).value.AtRest()
  {
    hide After;
    AfterNone();
    AfterThen([], Copy(u));
    AfterThen([] + [Copy(u)], Unlock);
    AfterThen([] + [Copy(u)] + [Unlock], Lock);
    AfterThen([] + [Copy(u)] + [Unlock] + [Lock], Copy(v));
    AfterThen([] + [Copy(u)] + [Unlock] + [Lock] + [Copy(v)], Unlock);
    var a: seq<Act> := [] + [Copy(u)] + [Unlock] + [Lock] + [Copy(v)] + [Unlock];
    assert [] + [u] == [u] && [u] + [v] == [u, v];
    assert After(a) == Some(State(v, true, false, true, [u, v], [], [], 2, 0, true));
    AfterThen(a, Copy(w));
    AfterThen(a + [Copy(w)], Print);
    AfterThen(a + [Copy(w)] + [Print], Lock);
    AfterThen(a + [Copy(w)] + [Print] + [Lock], Print);
    AfterThen(a + [Copy(w)] + [Print] + [Lock] + [Print], Unlock);
    AfterThen(a + [Copy(w)] + [Print] + [Lock] + [Print] + [Unlock], Lock);
    AfterThen(a + [Copy(w)] + [Print] + [Lock] + [Print] + [Unlock] + [Lock], Print);
    assert [] + [w] + [w] + [w] == [w, w, w];
    assert [Copy(u), Unlock, Lock, Copy(v), Unlock, Copy(w), Print, Lock, Print, Unlock, Lock, Print]
        == a + [Copy(w)] + [Print] + [Lock] + [Print] + [Unlock] + [Lock] + [Print];
  }

  lemma AfterNone()
    ensures After([]) == Some(INIT)
  {
  }

  // ------------------------------------------------- which interleavings there are

  datatype Kind = COPY | UNLOCK | LOCK | PRINT

  function KindOf(a: Act): Kind {
    match a
    case Copy(_) => COPY
    case Unlock => UNLOCK
    case Lock => LOCK
    case Print => PRINT
  }

  /** Of the steps of the two kinds before step i, the last one is of the first kind. */
  predicate LastIs(acts: seq<Act>, i: nat, kind: Kind, other: Kind)
    requires i <= |acts|
  {
    exists j :: 0 <= j < i && LastAt(acts, i, j, kind, other)
  }

  predicate LastAt(acts: seq<Act>, i: nat, j: nat, kind: Kind, other: Kind)
    requires j < i <= |acts|
  {
    && KindOf(acts[j]) == kind
    && forall l :: j < l < i ==> KindOf(acts[l]) != kind && KindOf(acts[l]) != other
  }

  /** The order of the steps that the program text and the mutex impose: Copy and Unlock take turns,
      Lock and Print take turns, and before the first Lock and between two Locks there is an Unlock. */
  predicate Ordered(acts: seq<Act>) {
    forall i :: 0 <= i < |acts| ==> MayCome(acts, i)
  }

  predicate MayCome(acts: seq<Act>, i: nat)
    requires i < |acts|
  {
    match acts[i]
    case Copy(_) => !LastIs(acts, i, COPY, UNLOCK)
    case Unlock => LastIs(acts, i, COPY, UNLOCK)
    case Lock => !LastIs(acts, i, LOCK, PRINT) && LastIs(acts, i, UNLOCK, LOCK)
    case Print => LastIs(acts, i, LOCK, PRINT)
  }

  lemma LastIsNext(acts: seq<Act>, i: nat, kind: Kind, other: Kind)
    requires i < |acts| && kind != other
    ensures !LastIs(acts, 0, kind, other)
    ensures LastIs(acts, i + 1, kind, other)
            <==> if KindOf(acts[i]) == kind then true
                 else if KindOf(acts[i]) == other then false
                 else LastIs(acts, i, kind, other)
  {
    hide KindOf;
    var n := i + 1;
    if KindOf(acts[i]) == kind {
      assert LastAt(acts, n, i, kind, other);
    } else if KindOf(acts[i]) != other {
      if j :| 0 <= j < i && LastAt(acts, i, j, kind, other) {
        assert LastAt(acts, n, j, kind, other);
      }
      if j :| 0 <= j < n && LastAt(acts, n, j, kind, other) {
        assert LastAt(acts, i, j, kind, other);
      }
    }
  }

  lemma AfterPrefix(acts: seq<Act>, i: nat)
    requires i < |acts|
    ensures After(acts[..0]) == Some(INIT)
    ensures After(acts[..i + 1]) == match After(acts[..i]) case Some(s) => Next(s, acts[i]) case None => None
  {
    assert acts[..i + 1][..i] == acts[..i];
  }

  lemma NextExactly(s: State, acts: seq<Act>, i: nat)
    requires i < |acts|
    requires s.copied <==> LastIs(acts, i, COPY, UNLOCK)
    requires s.locked <==> LastIs(acts, i, LOCK, PRINT)
    requires s.free <==> LastIs(acts, i, UNLOCK, LOCK)
    ensures Next(s, acts[i]).Some? <==> MayCome(acts, i)
  {
    hide LastIs;
  }

  /** Where the threads are and whether the mutex is free is what the last steps of a kind say; and the
      first i steps can be taken exactly when each of them may come. */
  lemma {:induction false} StateOfRun(acts: seq<Act>, i: nat)
    requires i <= |acts|
    ensures After(acts[..i]).Some? <==> forall j :: 0 <= j < i ==> MayCome(acts, j)
    ensures After(acts[..i]).Some? ==>
              var s := After(acts[..i]).value;
              && (s.copied <==> LastIs(acts, i, COPY, UNLOCK))
              && (s.locked <==> LastIs(acts, i, LOCK, PRINT))
              && (s.free <==> LastIs(acts, i, UNLOCK, LOCK))
  {
    hide After, LastIs, MayCome;
    if i == 0 {
      StateOfNone(acts);
    } else {
      StateOfRun(acts, i - 1);
      AfterPrefix(acts, i - 1);
      if After(acts[..i - 1]).Some? {
        NextExactly(After(acts[..i - 1]).value, acts, i - 1);
      }
      LastIsNext(acts, i - 1, COPY, UNLOCK);
      LastIsNext(acts, i - 1, LOCK, PRINT);
      LastIsNext(acts, i - 1, UNLOCK, LOCK);
    }
  }

  lemma StateOfNone(acts: seq<Act>)
    ensures acts[..0] == [] && After([]) == Some(INIT)
    ensures !LastIs(acts, 0, COPY, UNLOCK) && !LastIs(acts, 0, LOCK, PRINT) && !LastIs(acts, 0, UNLOCK, LOCK)
  {
  }

  /** The interleavings are exactly the ordered ones; in particular an Unlock never waits. */
  lemma RunsExactly(acts: seq<Act>)
    ensures After(acts).Some? <==> Ordered(acts)
  {
    hide After, MayCome;
    StateOfRun(acts, |acts|);
    assert acts[..|acts|] == acts;
  }

  // ------------------------------------------------- many URLs before one print

  /** The sniffer passes on URLs while the writer sleeps. */
  function Burst(urls: seq<url>): seq<Act> {
    if urls == [] then [] else Burst(urls[..|urls| - 1]) + [Copy(urls[|urls| - 1]), Unlock]
  }

  lemma AfterThenTwo(acts: seq<Act>, a: Act, b: Act)
    ensures After(acts + [a, b])
            == match After(acts)
               case None => None
               case Some(s) => match Next(s, a) case None => None case Some(t) => Next(t, b)
  {
    hide Next, After;
    AfterThen(acts, a);
    AfterThen(acts + [a], b);
    assert acts + [a] + [b] == acts + [a, b];
  }

  lemma BurstNext(before: seq<Act>, urls: seq<url>)
    requires urls != []
    ensures before + Burst(urls) == before + Burst(urls[..|urls| - 1]) + [Copy(urls[|urls| - 1]), Unlock]
  {
    var x, y := Burst(urls[..|urls| - 1]), [Copy(urls[|urls| - 1]), Unlock];
    assert Burst(urls) == x + y;
    hide Burst;
    assert before + (x + y) == before + x + y;
  }

  /** After any run that leaves the sniffer idle it can copy and unlock for all of them; every unlock
      but the first, or also that one when the mutex was free, is merged. */
  lemma {:induction false} BurstRuns(before: seq<Act>, urls: seq<url>)
    requires After(before).Some? && !After(before).value.copied && urls != []
    ensures var s, t := After(before).value, After(before + Burst(urls));
            && t.Some? && !t.value.copied && t.value.free && t.value.locked == s.locked
            && t.value.slot == urls[|urls| - 1] && t.value.printed == s.printed
            && t.value.appended == s.appended + urls
            && t.value.merged == s.merged + |urls| - if s.free then 0 else 1
    decreases |urls|
  {
    hide After;
    var n := |urls| - 1;
    BurstNext(before, urls);
    AfterThenTwo(before + Burst(urls[..n]), Copy(urls[n]), Unlock);
    if n == 0 {
      assert Burst(urls[..0]) == [] && before + [] == before;
      assert urls == [urls[0]];
    } else {
      BurstRuns(before, urls[..n]);
      assert urls == urls[..n] + [urls[n]];
    }
  }

  /** A burst of URLs is printed as its last one: after any run that leaves both threads idle, the
      sniffer passes on all of them without waiting for the writer, and then one Lock and one Print put
      both threads to rest with just that one printed. */
  lemma BurstPrintsLast(before: seq<Act>, urls: seq<url>)
    requires After(before).Some? && !After(before).value.copied && !After(before).value.locked && urls != []
    ensures After(before + Burst(urls)).Some?
    ensures var t := After(before + Burst(urls) + [Lock, Print]);
            t.Some? && t.value.AtRest()
            && t.value.printed == After(before).value.printed + [urls[|urls| - 1]]
  {
    hide After;
    BurstRuns(before, urls);
    AfterThenTwo(before + Burst(urls), Lock, Print);
  }
}
