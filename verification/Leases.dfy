// The DHCP server as a state machine over the messages it receives, and what every run of it
// hands out. The address for a cursor is a parameter, a; the server's own is Addresses.Plan.
module Leases {
  import opened Bytes
  import opened IpPool

  const FIRST_HOST := 40

  datatype Msg = Discover(id: word) | Request(id: word) | Other {
    /** The message makes the server bind its id. */
    predicate Binds() {
      !Other?
    }

    /** The message makes the server bind an id that lives in slot k. */
    predicate BindsSlot(k: nat) {
      Binds() && Key(id) == k
    }
  }

  datatype Reply = Silent | Offer(addr: word) | Ack(addr: word)

  datatype State = State(cursor: nat, history: seq<Binding>)

  const INIT := State(FIRST_HOST, [])

  /** One iteration of the server loop. */
  function Step(a: nat -> word, s: State, m: Msg): (State, Reply) {
    match m
    case Discover(id) =>
      var addr := a(s.cursor);
      (State(s.cursor, s.history + [Binding(addr, id)]), Offer(addr))
    case Request(id) =>
      var bound := Latest(s.history, Key(id));
      var addr := a(s.cursor);
      (State((s.cursor + 1) % WORD, s.history + [Binding(addr, id)]),
       Ack(if bound == ZERO then addr else bound))
    case Other => (s, Silent)
  }

  /** The state after a run. */
  function After(a: nat -> word, run: seq<Msg>): State {
    if run == [] then INIT
    else Step(a, After(a, run[..|run| - 1]), run[|run| - 1]).0
  }

  /** The reply to message i of a run. */
  function ReplyTo(a: nat -> word, run: seq<Msg>, i: nat): Reply
    requires i < |run|
  {
    Step(a, After(a, run[..i]), run[i]).1
  }

  // ------------------------------------------------- closed form

  function Requests(run: seq<Msg>): nat {
    if run == [] then 0
    else Requests(run[..|run| - 1]) + if run[|run| - 1].Request? then 1 else 0
  }

  /** The cursor before message i. */
  function CursorAt(run: seq<Msg>, i: nat): nat
    requires i <= |run|
  {
    (FIRST_HOST + Requests(run[..i])) % WORD
  }

  /** The latest message before i that binds slot k, or -1. */
  function LatestBinder(run: seq<Msg>, i: nat, k: nat): (j: int)
    requires i <= |run|
    ensures -1 <= j < i
    ensures j >= 0 ==> run[j].BindsSlot(k)
    ensures forall l :: j < l < i ==> !run[l].BindsSlot(k)
  {
    if i == 0 then -1
    else if run[i - 1].BindsSlot(k) then i - 1
    else LatestBinder(run, i - 1, k)
  }

  /** Where the address acked at step i was drawn: the latest binder of its slot, or i itself. */
  function Anchor(run: seq<Msg>, i: nat): nat
    requires i < |run| && run[i].Request?
  {
    var j := LatestBinder(run, i, Key(run[i].id));
    if j < 0 then i else j
  }

  lemma AfterNext(a: nat -> word, run: seq<Msg>, i: nat)
    requires i < |run|
    ensures After(a, run[..i + 1]) == Step(a, After(a, run[..i]), run[i]).0
    ensures Requests(run[..i + 1]) == Requests(run[..i]) + if run[i].Request? then 1 else 0
  {
    hide Step;
    assert run[..i + 1][..i] == run[..i];
  }

  lemma StepCursor(a: nat -> word, s: State, m: Msg)
    ensures Step(a, s, m).0.cursor == if m.Request? then (s.cursor + 1) % WORD else s.cursor
  {
  }

  lemma StepSlot(a: nat -> word, s: State, m: Msg, k: nat)
    ensures Latest(Step(a, s, m).0.history, k)
            == if m.BindsSlot(k) then a(s.cursor) else Latest(s.history, k)
  {
    hide Key;
    if m.Binds() {
      var b := Binding(a(s.cursor), m.id);
      assert (s.history + [b])[..|s.history|] == s.history;
    }
  }

  lemma WrapNext(x: nat)
    ensures (x % WORD + 1) % WORD == (x + 1) % WORD
  {
  }

  lemma CursorAtIs(run: seq<Msg>, i: nat)
    requires i <= |run|
    ensures CursorAt(run, i) == (40 + Requests(run[..i])) % 0x1_0000_0000
  {
  }

  lemma CursorStart(a: nat -> word, run: seq<Msg>)
    ensures CursorAt(run, 0) == After(a, run[..0]).cursor
  {
  }

  lemma CursorNext(a: nat -> word, run: seq<Msg>, i: nat)
    requires i < |run|
    ensures CursorAt(run, i + 1) == if run[i].Request? then (CursorAt(run, i) + 1) % WORD else CursorAt(run, i)
  {
    hide Step;
    AfterNext(a, run, i);
    WrapNext(FIRST_HOST + Requests(run[..i]));
    hide Requests;
  }

  /** The cursor counts the REQUESTs. */
  lemma {:induction false} CursorOfRun(a: nat -> word, run: seq<Msg>, i: nat)
    requires i <= |run|
    ensures After(a, run[..i]).cursor == CursorAt(run, i) == (40 + Requests(run[..i])) % 0x1_0000_0000
  {
    hide *;
    if i == 0 {
      CursorStart(a, run);
    } else {
      CursorOfRun(a, run, i - 1);
      CursorNext(a, run, i - 1);
      AfterNext(a, run, i - 1);
      StepCursor(a, After(a, run[..i - 1]), run[i - 1]);
    }
    CursorAtIs(run, i);
  }

  lemma LatestBinderNext(run: seq<Msg>, i: nat, k: nat)
    requires 0 < i <= |run|
    ensures LatestBinder(run, i, k) == if run[i - 1].BindsSlot(k) then i - 1 else LatestBinder(run, i - 1, k)
  {
  }

  lemma NothingBound(a: nat -> word, run: seq<Msg>, k: nat)
    ensures LatestBinder(run, 0, k) == -1 && Latest(After(a, run[..0]).history, k) == ZERO
  {
  }

  /** Every slot holds the address that was current when the slot was bound last. */
  lemma {:induction false} SlotOfRun(a: nat -> word, run: seq<Msg>, i: nat, k: nat)
    requires i <= |run|
    ensures var j := LatestBinder(run, i, k);
            Latest(After(a, run[..i]).history, k) == if j < 0 then ZERO else a(CursorAt(run, j))
  {
    hide *;
    if i == 0 {
      NothingBound(a, run, k);
    } else {
      SlotOfRun(a, run, i - 1, k);
      CursorOfRun(a, run, i - 1);
      AfterNext(a, run, i - 1);
      StepSlot(a, After(a, run[..i - 1]), run[i - 1], k);
      LatestBinderNext(run, i, k);
    }
  }

  /** What every run hands out. A DISCOVER is offered the address of the current cursor. A
      REQUEST is acked the address that was current when its slot was bound last; when the slot
      was never bound, or was bound to the address 0, it is acked the current one. */
  lemma ClosedForm(a: nat -> word, run: seq<Msg>, i: nat)
    requires i < |run|
    ensures run[i].Discover? ==> ReplyTo(a, run, i) == Offer(a(CursorAt(run, i)))
    ensures run[i].Request? ==>
              var drawn := a(CursorAt(run, Anchor(run, i)));
              ReplyTo(a, run, i) == Ack(if drawn == ZERO then a(CursorAt(run, i)) else drawn)
    ensures run[i].Other? ==> ReplyTo(a, run, i) == Silent
  {
    hide Key, After, Latest, CursorAt, LatestBinder;
    CursorOfRun(a, run, i);
    if run[i].Request? {
      SlotOfRun(a, run, i, Key(run[i].id));
    }
  }

  // ------------------------------------------------- runs inside the host range

  /** Below the limit the addresses are distinct, and none but that of 0 is the address 0. */
  ghost predicate GoodPlan(a: nat -> word, limit: nat) {
    && limit <= WORD
    && (forall m, n :: 0 <= m < limit && 0 <= n < limit && a(m) == a(n) ==> m == n)
    && (forall n :: 0 < n < limit ==> a(n) != ZERO)
  }

  /** The run needs no cursor beyond a limit below which the addresses are good. */
  ghost predicate InRange(a: nat -> word, limit: nat, run: seq<Msg>) {
    GoodPlan(a, limit) && FIRST_HOST + Requests(run) <= limit
  }

  /** No REQUEST from lo on and before hi. */
  predicate NoRequest(run: seq<Msg>, lo: nat, hi: nat)
    requires hi <= |run|
  {
    forall l :: lo <= l < hi ==> !run[l].Request?
  }

  lemma {:induction false} RequestsBetween(run: seq<Msg>, lo: nat, hi: nat)
    requires lo <= hi <= |run|
    ensures Requests(run[..lo]) <= Requests(run[..hi])
    ensures Requests(run[..lo]) == Requests(run[..hi]) <==> NoRequest(run, lo, hi)
  {
    if lo < hi {
      RequestsBetween(run, lo, hi - 1);
      assert run[..hi][..hi - 1] == run[..hi - 1];
    }
  }

  /** Before any REQUEST of such a run the cursor is below the limit, so its address is not 0. */
  lemma CursorInRange(a: nat -> word, limit: nat, run: seq<Msg>, i: nat, j: nat)
    requires InRange(a, limit, run) && j <= i < |run| && run[i].Request?
    ensures CursorAt(run, j) == FIRST_HOST + Requests(run[..j]) < limit
    ensures a(CursorAt(run, j)) != ZERO
  {
    hide Requests;
    assert run[..|run|] == run;
    RequestsBetween(run, j, i);
    RequestsBetween(run, i, |run|);
    assert !NoRequest(run, i, |run|);
  }

  /** In range, an ACK carries the address for 40 plus the number of REQUESTs before the anchor. */
  lemma AckInRange(a: nat -> word, limit: nat, run: seq<Msg>, i: nat)
    requires InRange(a, limit, run) && i < |run| && run[i].Request?
    ensures FIRST_HOST + Requests(run[..Anchor(run, i)]) < limit
    ensures ReplyTo(a, run, i) == Ack(a(FIRST_HOST + Requests(run[..Anchor(run, i)])))
  {
    hide Key, ReplyTo;
    ClosedForm(a, run, i);
    CursorInRange(a, limit, run, i, Anchor(run, i));
  }

  /** Two draws of an address agree exactly when no REQUEST lies between them. */
  lemma SameDraw(a: nat -> word, limit: nat, run: seq<Msg>, d: nat, e: nat, i: nat)
    requires InRange(a, limit, run) && d <= e <= i < |run| && run[i].Request?
    ensures a(CursorAt(run, d)) == a(CursorAt(run, e)) <==> NoRequest(run, d, e)
  {
    hide Requests, NoRequest;
    CursorInRange(a, limit, run, i, d);
    CursorInRange(a, limit, run, i, e);
    RequestsBetween(run, d, e);
  }

  /** Exact uniqueness: two ACKs carry the same address if and only if no REQUEST lies between
      their anchors. */
  lemma AcksAgreeExactly(a: nat -> word, limit: nat, run: seq<Msg>, i: nat, j: nat)
    requires InRange(a, limit, run)
    requires i < |run| && j < |run| && run[i].Request? && run[j].Request?
    requires Anchor(run, i) <= Anchor(run, j)
    ensures ReplyTo(a, run, i) == ReplyTo(a, run, j)
            <==> NoRequest(run, Anchor(run, i), Anchor(run, j))
  {
    hide Key, ReplyTo;
    ClosedForm(a, run, i);
    ClosedForm(a, run, j);
    CursorInRange(a, limit, run, i, Anchor(run, i));
    CursorInRange(a, limit, run, j, Anchor(run, j));
    SameDraw(a, limit, run, Anchor(run, i), Anchor(run, j), j);
  }

  /** A REQUEST whose slot was bound at or after a message is anchored at or after it. */
  lemma AnchorNotBefore(run: seq<Msg>, i: nat, j: nat)
    requires j < i < |run| && run[i].Request? && run[j].BindsSlot(Key(run[i].id))
    ensures j <= Anchor(run, i) < i
  {
  }

  /** Two clients discover and then request, in either order. */
  function Pair(t: word, u: word, swapped: bool): (run: seq<Msg>)
    ensures |run| == 4
  {
    [Discover(t), Discover(u)] + if swapped then [Request(u), Request(t)] else [Request(t), Request(u)]
  }

  /** Two clients whose DISCOVERs and then REQUESTs follow each other, with no other message in
      between, share one address: after any run, in either order of the REQUESTs, and whether or
      not their ids share a slot. */
  lemma {:induction false} ConcurrentClientsShare(a: nat -> word, limit: nat, before: seq<Msg>,
                                                  t: word, u: word, swapped: bool)
    requires InRange(a, limit, before + Pair(t, u, swapped))
    ensures var run, n := before + Pair(t, u, swapped), |before|;
            ReplyTo(a, run, n + 2) == ReplyTo(a, run, n + 3) == Ack(a(FIRST_HOST + Requests(before)))
  {
    hide Key, ReplyTo, Requests, Anchor, InRange;
    var run, n := before + Pair(t, u, swapped), |before|;
    assert run[..n] == before;
    SharedDraw(a, limit, run, n, n + 2);
    SharedDraw(a, limit, run, n, n + 3);
  }

  /** The two REQUESTs of such a pair. */
  lemma SharedDraw(a: nat -> word, limit: nat, run: seq<Msg>, n: nat, i: nat)
    requires InRange(a, limit, run) && |run| == n + 4 && n + 2 <= i < n + 4
    requires run[n].Discover? && run[n + 1].Discover? && run[n + 2].Request? && run[n + 3].Request?
    requires run[i].id == run[n].id || run[i].id == run[n + 1].id
    ensures ReplyTo(a, run, i) == Ack(a(FIRST_HOST + Requests(run[..n])))
  {
    hide Key, ReplyTo, Requests, InRange;
    AnchorNotBefore(run, i, if run[i].id == run[n].id then n else n + 1);
    AckInRange(a, limit, run, i);
    assert NoRequest(run, n, Anchor(run, i));
    RequestsBetween(run, n, Anchor(run, i));
  }

  /** With a third client in between they need not: a REQUEST of v in the slot of u makes the server
      forget what it offered u, and u gets the next address. */
  lemma ThirdClientSeparates(a: nat -> word, limit: nat, t: word, u: word, v: word)
    requires GoodPlan(a, limit) && FIRST_HOST + 3 <= limit
    requires Key(v) == Key(u) != Key(t)
    ensures var run := [Discover(t), Discover(u), Request(t), Request(v), Request(u)];
            && ReplyTo(a, run, 2) == Ack(a(FIRST_HOST))
            && ReplyTo(a, run, 4) == Ack(a(FIRST_HOST + 1))
            && a(FIRST_HOST) != a(FIRST_HOST + 1)
  {
    hide Key, ReplyTo, Requests;
    var run := [Discover(t), Discover(u), Request(t), Request(v), Request(u)];
    NoneThenThree(run);
    assert Anchor(run, 2) == 0 && Anchor(run, 4) == 3;
    AckInRange(a, limit, run, 2);
    AckInRange(a, limit, run, 4);
  }

  lemma NoneThenThree(run: seq<Msg>)
    requires |run| == 5 && run[0].Discover? && run[1].Discover?
    requires run[2].Request? && run[3].Request? && run[4].Request?
    ensures Requests(run[..0]) == 0 && Requests(run[..3]) == 1 && Requests(run) == 3
  {
    hide Requests;
    RequestsNext(run, 0);
    RequestsNext(run, 1);
    RequestsNext(run, 2);
    RequestsNext(run, 3);
    RequestsNext(run, 4);
    assert run[..5] == run;
  }

  lemma RequestsNext(run: seq<Msg>, i: nat)
    requires i < |run|
    ensures Requests(run[..0]) == 0
    ensures Requests(run[..i + 1]) == Requests(run[..i]) + if run[i].Request? then 1 else 0
  {
    assert run[..i + 1][..i] == run[..i];
  }

  /** There are such clients. */
  lemma ThirdClientExists()
    ensures Key([0, 2, 0, 0]) == Key([2, 0, 0, 0]) != Key([1, 0, 0, 0])
  {
  }

  // ------------------------------------------------- how often one address is given

  /** Of two ACKs in one slot that carry the same address, the first is the first ACK of all that
      carries it. */
  lemma SecondInSlot(a: nat -> word, limit: nat, run: seq<Msg>, first: nat, i: nat, j: nat)
    requires InRange(a, limit, run) && first <= i < j < |run|
    requires run[first].Request? && run[i].Request? && run[j].Request?
    requires ReplyTo(a, run, first) == ReplyTo(a, run, i) == ReplyTo(a, run, j)
    requires Key(run[i].id) == Key(run[j].id)
    ensures i == first
  {
    hide Key, ReplyTo, InRange;
    AnchorNotBefore(run, j, i);
    assert Anchor(run, first) <= first && Anchor(run, i) <= i;
    AcksAgreeExactly(a, limit, run, first, j);
    AcksAgreeExactly(a, limit, run, i, j);
    assert !NoRequest(run, Anchor(run, first), i) || first == i by {
      assert run[first].Request?;
    }
  }

  /** No more messages than slots, when no two share one. */
  lemma {:induction false} OnePerSlot(run: seq<Msg>, js: set<nat>, n: nat)
    requires forall j :: j in js ==> j < |run| && run[j].Request? && Key(run[j].id) < n
    requires forall i, j :: i in js && j in js && Key(run[i].id) == Key(run[j].id) ==> i == j
    ensures |js| <= n
  {
    hide Key;
    if n == 0 {
      assert js == {};
    } else if j :| j in js && Key(run[j].id) == n - 1 {
      OnePerSlot(run, js - {j}, n - 1);
    } else {
      OnePerSlot(run, js, n - 1);
    }
  }

  /** In an in-range run one address is acked at most 257 times: once per slot, and once more. */
  lemma AckedAtMost(a: nat -> word, limit: nat, run: seq<Msg>, js: set<nat>, addr: word)
    requires InRange(a, limit, run)
    requires forall j :: j in js ==> j < |run| && run[j].Request? && ReplyTo(a, run, j) == Ack(addr)
    ensures |js| <= SLOTS + 1
  {
    hide Key, ReplyTo, InRange;
    if js != {} {
      var first := Least(js);
      var others := js - {first};
      forall i, j | i in others && j in others && Key(run[i].id) == Key(run[j].id)
        ensures i == j
      {
        if i < j {
          SecondInSlot(a, limit, run, first, i, j);
        } else if j < i {
          SecondInSlot(a, limit, run, first, j, i);
        }
      }
      OnePerSlot(run, others, SLOTS);
    }
  }

  lemma {:induction false} Least(js: set<nat>) returns (m: nat)
    requires js != {}
    ensures m in js && forall j :: j in js ==> m <= j
    decreases |js|
  {
    var p :| p in js;
    m := p;
    if js != {p} {
      var r := Least(js - {p});
      m := if r < p then r else p;
      forall j | j in js
        ensures m <= j
      {
        assert j == p || j in js - {p};
      }
    }
  }

  /** An id that lives in slot k. */
  function IdIn(k: nat): word
    requires k < SLOTS
  {
    [k, 0, 0, 0]
  }

  /** A DISCOVER in every slot, one REQUEST, and then one REQUEST in every slot. */
  function Crowd(): (run: seq<Msg>)
    ensures |run| == 513
    ensures forall i :: 0 <= i < 256 ==> run[i] == Discover(IdIn(i))
    ensures run[256] == Request(IdIn(0))
    ensures forall i :: 257 <= i < 513 ==> run[i] == Request(IdIn(i - 257))
  {
    seq(256, i requires 0 <= i < 256 => Discover(IdIn(i))) + [Request(IdIn(0))]
    + seq(256, i requires 0 <= i < 256 => Request(IdIn(i)))
  }

  lemma CrowdAnchor(i: nat)
    requires 256 <= i < 513
    ensures Crowd()[i].Request? && Anchor(Crowd(), i) <= 256
  {
    hide Crowd;
    var run := Crowd();
    if i > 256 {
      var k := i - 257;
      assert run[k].BindsSlot(Key(run[i].id));
      forall l | 256 < l < i
        ensures !run[l].BindsSlot(Key(run[i].id))
      {
        assert run[l] == Request(IdIn(l - 257)) && run[i] == Request(IdIn(k));
      }
    }
  }

  lemma {:induction false} RequestsAtMost(run: seq<Msg>, lo: nat, hi: nat)
    requires lo <= hi <= |run|
    ensures Requests(run[..hi]) <= Requests(run[..lo]) + hi - lo
  {
    if lo < hi {
      RequestsAtMost(run, lo, hi - 1);
      RequestsNext(run, hi - 1);
    }
  }

  /** The bound is reached: all 257 REQUESTs of the crowd are acked one address. */
  lemma CrowdShares(a: nat -> word, limit: nat, i: nat)
    requires GoodPlan(a, limit) && FIRST_HOST + SLOTS + 1 <= limit && 256 <= i < 513
    ensures ReplyTo(a, Crowd(), i) == Ack(a(FIRST_HOST))
  {
    hide Crowd, Key, ReplyTo, Requests, Anchor;
    var run := Crowd();
    assert NoRequest(run, 0, 256);
    RequestsBetween(run, 0, 256);
    RequestsNext(run, 0);
    RequestsAtMost(run, 256, 513);
    assert run[..513] == run;
    CrowdAnchor(i);
    AckInRange(a, limit, run, i);
    RequestsBetween(run, 0, Anchor(run, i));
    assert NoRequest(run, 0, Anchor(run, i));
  }

  // ------------------------------------------------- offers

  /** The exact fate of an offer: the later ACK for the same id carries the offered address if
      and only if no REQUEST lies between the DISCOVER and the last message that bound the slot
      before the ACK. */
  lemma OfferKeptExactly(a: nat -> word, limit: nat, run: seq<Msg>, d: nat, r: nat)
    requires InRange(a, limit, run)
    requires d < r < |run| && run[d].Discover? && run[r] == Request(run[d].id)
    ensures ReplyTo(a, run, d).Offer? && ReplyTo(a, run, r).Ack? && d <= Anchor(run, r)
    ensures ReplyTo(a, run, r).addr == ReplyTo(a, run, d).addr <==> NoRequest(run, d, Anchor(run, r))
  {
    hide Key, ReplyTo;
    ClosedForm(a, run, d);
    ClosedForm(a, run, r);
    assert run[d].BindsSlot(Key(run[r].id));
    CursorInRange(a, limit, run, r, Anchor(run, r));
    SameDraw(a, limit, run, d, Anchor(run, r), r);
  }

  /** Offer stability: without a colliding message in between the ACK carries the offer, however
      many other clients moved the cursor, in every run in which the offer is not the address 0. */
  lemma OfferStable(a: nat -> word, run: seq<Msg>, d: nat, r: nat)
    requires d < r < |run| && run[d].Discover? && run[r] == Request(run[d].id)
    requires forall l :: d < l < r ==> !run[l].BindsSlot(Key(run[d].id))
    ensures ReplyTo(a, run, d) == Offer(a(CursorAt(run, d)))
    ensures ReplyTo(a, run, d).addr != ZERO ==> ReplyTo(a, run, r) == Ack(ReplyTo(a, run, d).addr)
  {
    hide Key, ReplyTo;
    ClosedForm(a, run, d);
    ClosedForm(a, run, r);
    assert run[d].BindsSlot(Key(run[r].id));
    assert Anchor(run, r) == d;
  }

  // ------------------------------------------------- handshakes one after the other

  /** Each client discovers and requests before the next one does. */
  function Serial(ids: seq<word>): (run: seq<Msg>)
    ensures |run| == 2 * |ids|
  {
    if ids == [] then []
    else Serial(ids[..|ids| - 1]) + [Discover(ids[|ids| - 1]), Request(ids[|ids| - 1])]
  }

  lemma {:induction false} SerialAt(ids: seq<word>, i: nat)
    requires i < |ids|
    ensures var run, at := Serial(ids), 2 * i;
            && run[at] == Discover(ids[i])
            && run[at + 1] == Request(ids[i])
            && Requests(run[..at]) == i
            && Requests(run) == |ids|
  {
    var run, front := Serial(ids), ids[..|ids| - 1];
    assert Serial(front) == run[..2 * |front|];
    if i < |front| {
      SerialAt(front, i);
      assert run[..2 * |front|][..2 * i] == run[..2 * i];
    } else if front != [] {
      SerialAt(front, 0);
    }
    RequestsAppended(Serial(front), ids[|front|], ids[|front|]);
  }

  lemma RequestsAppended(run: seq<Msg>, t: word, u: word)
    ensures Requests(run + [Discover(t), Request(u)]) == Requests(run) + 1
  {
    var longer := run + [Discover(t), Request(u)];
    assert longer[..|run| + 1] == run + [Discover(t)];
    assert (run + [Discover(t)])[..|run|] == run;
  }

  /** A REQUEST right after a message for the same id is anchored there. */
  lemma AnchorJustBefore(run: seq<Msg>, i: nat)
    requires 0 < i < |run| && run[i].Request? && run[i - 1].Binds() && run[i - 1].id == run[i].id
    ensures Anchor(run, i) == i - 1
  {
  }

  /** Serial handshakes are offered and acked the addresses 40, 41, ... of the network in order,
      whatever the ids are, even when they collide. */
  lemma SerialHandshakes(a: nat -> word, limit: nat, ids: seq<word>, i: nat)
    requires InRange(a, limit, Serial(ids)) && i < |ids|
    ensures ReplyTo(a, Serial(ids), 2 * i) == Offer(a(40 + i))
    ensures ReplyTo(a, Serial(ids), 2 * i + 1) == Ack(a(40 + i))
  {
    hide ReplyTo, Serial, Requests, InRange;
    var run, at := Serial(ids), 2 * i;
    SerialAt(ids, i);
    HandshakeAt(a, limit, run, at);
  }

  /** A DISCOVER followed at once by the same client's REQUEST. */
  lemma HandshakeAt(a: nat -> word, limit: nat, run: seq<Msg>, at: nat)
    requires InRange(a, limit, run) && at + 1 < |run|
    requires run[at].Discover? && run[at + 1] == Request(run[at].id)
    ensures var addr := a(FIRST_HOST + Requests(run[..at]));
            ReplyTo(a, run, at) == Offer(addr) && ReplyTo(a, run, at + 1) == Ack(addr)
  {
    hide Key, ReplyTo, Anchor;
    AnchorJustBefore(run, at + 1);
    ClosedForm(a, run, at);
    AckInRange(a, limit, run, at + 1);
    CursorInRange(a, limit, run, at + 1, at);
  }

  /** So no two serial clients share an address. */
  lemma SerialDistinct(a: nat -> word, limit: nat, ids: seq<word>, i: nat, j: nat)
    requires InRange(a, limit, Serial(ids)) && i < j < |ids|
    ensures ReplyTo(a, Serial(ids), 2 * i + 1) != ReplyTo(a, Serial(ids), 2 * j + 1)
  {
    hide Key, ReplyTo, Serial, Requests;
    SerialHandshakes(a, limit, ids, i);
    SerialHandshakes(a, limit, ids, j);
    SerialAt(ids, i);
  }

  // ------------------------------------------------- repeated requests

  /** After any run, a DISCOVER and n REQUESTs for one id. */
  function Repeated(before: seq<Msg>, t: word, n: nat): seq<Msg> {
    before + [Discover(t)] + seq(n, _ => Request(t))
  }

  lemma {:induction false} RepeatedRequests(before: seq<Msg>, t: word, n: nat, i: nat)
    requires i <= n
    ensures Requests(Repeated(before, t, n)[..|before| + 1 + i]) == Requests(before) + i
    ensures Repeated(before, t, n)[..|before|] == before
  {
    var run := Repeated(before, t, n);
    if i == 0 {
      assert run[..|before| + 1] == before + [Discover(t)];
      assert (before + [Discover(t)])[..|before|] == before;
    } else {
      RepeatedRequests(before, t, n, i - 1);
      assert run[..|before| + 1 + i][..|before| + i] == run[..|before| + i];
    }
  }

  lemma RepeatedAt(before: seq<Msg>, t: word, n: nat, i: nat)
    requires i < n
    ensures var run, at := Repeated(before, t, n), |before| + 1 + i;
            && at < |run| && run[at] == Request(t) && run[at - 1].Binds() && run[at - 1].id == t
            && Anchor(run, at) == at - 1
  {
  }

  /** The REQUESTs before the anchor of REQUEST i, and in the whole run. */
  lemma RepeatedCount(before: seq<Msg>, t: word, n: nat, i: nat)
    requires i < n
    ensures Requests(Repeated(before, t, n)[..|before| + i]) == Requests(before) + if i == 0 then 0 else i - 1
    ensures Requests(Repeated(before, t, n)) == Requests(before) + n
  {
    hide Requests;
    var run := Repeated(before, t, n);
    RepeatedRequests(before, t, n, if i == 0 then 0 else i - 1);
    RepeatedRequests(before, t, n, n);
    assert run[..|before| + 1 + n] == run;
  }

  /** The server's cursor after a whole run. */
  lemma CursorAtEnd(a: nat -> word, run: seq<Msg>)
    ensures After(a, run).cursor == (FIRST_HOST + Requests(run)) % WORD
  {
    CursorOfRun(a, run, |run|);
    assert run[..|run|] == run;
  }

  /** A client that keeps requesting keeps its offer for two ACKs only; each further REQUEST is
      acked the next address, and every one of them moves the cursor. */
  lemma RepeatedAcks(a: nat -> word, limit: nat, before: seq<Msg>, t: word, n: nat, i: nat)
    requires InRange(a, limit, Repeated(before, t, n)) && i < n
    ensures var c := FIRST_HOST + Requests(before);
            && ReplyTo(a, Repeated(before, t, n), |before| + 1 + i)
               == Ack(a(if i == 0 then c else c + i - 1))
            && After(a, Repeated(before, t, n)).cursor == (c + n) % WORD
  {
    hide Key, ReplyTo, Requests, Anchor, InRange, Repeated, After;
    CursorAtEnd(a, Repeated(before, t, n));
    RepeatedAt(before, t, n, i);
    AckInRange(a, limit, Repeated(before, t, n), |before| + 1 + i);
    RepeatedCount(before, t, n, i);
  }
}
