// The table that binds transaction ids to addresses: 1024 slots, indexed by the sum of the
// id's bytes, cleared lazily before its first use.
module IpPool {
  import opened Bytes

  const MAX_IP := 1024
  const SLOTS := 256

  /** The sum of the bytes of an id. */
  function ByteSum(id: word): nat {
    (id[0] as int) + (id[1] as int) + (id[2] as int) + (id[3] as int)
  }

  /** get_key_for_trs_id: the sum of the bytes in a uint8_t. */
  function Key(id: word): (k: nat)
    ensures k < SLOTS
  {
    ByteSum(id) % 256
  }

  // ------------------------------------------------- key arithmetic

  /** ++ on a uint32_t. */
  function Increment(id: word): word {
    Add32(id, [1, 0, 0, 0])
  }

  /** Low-order bytes equal to 0xFF before the first one that is not: those that wrap to 0. */
  function TrailingFF(id: word): (n: nat)
    ensures n <= 4
  {
    if id[0] != 0xFF then 0 else if id[1] != 0xFF then 1
    else if id[2] != 0xFF then 2 else if id[3] != 0xFF then 3 else 4
  }

  /** Bytes that increment and bytes that wrap, when the id does. */
  function Moved(id: word): (n: nat)
    ensures 1 <= n <= 4
  {
    if TrailingFF(id) == 4 then 4 else TrailingFF(id) + 1
  }

  lemma SumOfNextId(id: word)
    ensures ByteSum(Increment(id)) == ByteSum(id) + Moved(id) - 256 * TrailingFF(id)
  {
  }

  /** Going to the next id moves the key on by one, and by one more for every byte that wraps;
      only when all four wrap is there no byte left to increment. Two consecutive ids therefore
      never share a slot. */
  lemma KeyOfNextId(id: word)
    ensures Key([0, 0, 0, 0]) == 0
    ensures Key(Increment(id)) == (Key(id) + Moved(id)) % 256
    ensures Key(Increment(id)) != Key(id)
  {
    hide *;
    SumOfNextId(id);
    KeyIs([0, 0, 0, 0]);
    KeyIs(id);
    KeyIs(Increment(id));
    SumWraps(ByteSum(id), Moved(id), TrailingFF(id));
  }

  lemma SumWraps(sum: int, moved: int, wrapped: int)
    requires 1 <= moved <= 4 && 0 <= wrapped <= 4
    ensures (sum + moved - 256 * wrapped) % 256 == (sum % 256 + moved) % 256 != sum % 256
  {
  }

  lemma KeyIs(id: word)
    ensures Key(id) == ByteSum(id) % 256
    ensures ByteSum([0, 0, 0, 0]) == 0
  {
  }

  /** The key depends on which bytes the id has, not on their order. */
  lemma KeyOfPermutation(v: word, w: word)
    requires multiset(v) == multiset(w)
    ensures Key(v) == Key(w)
  {
    SumOfBytes(v);
    SumOfBytes(w);
    SumOfPermutation(v, w);
  }

  function Sum(s: seq<byte>): nat {
    if s == [] then 0 else s[0] + Sum(s[1..])
  }

  lemma SumOfBytes(w: word)
    ensures Sum(w) == ByteSum(w)
  {
    hide Sum;
    SumFirst(w);
    SumFirst(w[1..]);
    SumFirst(w[2..]);
    SumFirst(w[3..]);
    assert w[1..][1..] == w[2..] && w[2..][1..] == w[3..] && w[3..][1..] == [];
  }

  lemma SumFirst(s: seq<byte>)
    requires s != []
    ensures Sum([]) == 0 && Sum(s) == s[0] + Sum(s[1..])
  {
  }

  lemma {:induction false} SumWithout(s: seq<byte>, i: nat)
    requires i < |s|
    ensures Sum(s) == s[i] + Sum(s[..i] + s[i + 1..])
  {
    if i == 0 {
      assert s[..0] + s[1..] == s[1..];
    } else {
      SumWithout(s[1..], i - 1);
      assert (s[..i] + s[i + 1..])[1..] == s[1..][..i - 1] + s[1..][i..];
    }
  }

  /** The first element of one of two permutations, taken out of both. */
  lemma TakeOut(s: seq<byte>, t: seq<byte>) returns (i: nat)
    requires s != [] && multiset(s) == multiset(t)
    ensures i < |t| && t[i] == s[0]
    ensures multiset(s[1..]) == multiset(t[..i] + t[i + 1..])
  {
    assert s[0] in multiset(t);
    i :| 0 <= i < |t| && t[i] == s[0];
    WithoutFirst(s);
    Without(t, i);
  }

  lemma WithoutFirst(s: seq<byte>)
    requires s != []
    ensures multiset(s[1..]) == multiset(s) - multiset{s[0]}
  {
    assert s == [s[0]] + s[1..];
  }

  lemma Without(s: seq<byte>, i: nat)
    requires i < |s|
    ensures multiset(s[..i] + s[i + 1..]) == multiset(s) - multiset{s[i]}
  {
    assert s == s[..i] + ([s[i]] + s[i + 1..]);
  }

  lemma {:induction false} SumOfPermutation(s: seq<byte>, t: seq<byte>)
    requires multiset(s) == multiset(t)
    ensures Sum(s) == Sum(t)
  {
    if s == [] {
      assert |multiset(t)| == 0;
    } else {
      var i := TakeOut(s, t);
      SumWithout(t, i);
      SumOfPermutation(s[1..], t[..i] + t[i + 1..]);
    }
  }

  // ------------------------------------------------- the table and its history

  /** One call of set_ip_for_trs_id. */
  datatype Binding = Binding(ip: word, id: word)

  /** What a table that started empty holds in slot k after a history of calls. */
  function Latest(history: seq<Binding>, k: nat): word {
    if history == [] then ZERO
    else
      var last := history[|history| - 1];
      if Key(last.id) == k then last.ip else Latest(history[..|history| - 1], k)
  }

  /** An exact table, with no slots to share, after the same history. */
  function Exact(history: seq<Binding>): map<word, word> {
    if history == [] then map[]
    else
      var last := history[|history| - 1];
      Exact(history[..|history| - 1])[last.id := last.ip]
  }

  lemma LatestNext(history: seq<Binding>, b: Binding, k: nat)
    ensures Latest(history + [b], k) == if Key(b.id) == k then b.ip else Latest(history, k)
  {
    assert (history + [b])[..|history|] == history;
  }

  /** A slot holds the address of the last call that used it, wherever in the history that call
      is, and 0 when no call did. */
  lemma {:induction false} LatestIsLast(history: seq<Binding>, k: nat, j: int)
    requires -1 <= j < |history| && (j >= 0 ==> Key(history[j].id) == k)
    requires forall i :: j < i < |history| ==> Key(history[i].id) != k
    ensures Latest(history, k) == if j < 0 then ZERO else history[j].ip
  {
    if j < |history| - 1 {
      LatestIsLast(history[..|history| - 1], k, j);
    }
  }

  /** As long as no other id used the slot of t, the table answers for t what an exact table
      would: the address bound last, or 0 when t was never bound. */
  lemma {:induction false} TableIsExact(history: seq<Binding>, t: word)
    requires forall b :: b in history && Key(b.id) == Key(t) ==> b.id == t
    ensures Latest(history, Key(t)) == if t in Exact(history) then Exact(history)[t] else ZERO
  {
    if history != [] {
      assert history[|history| - 1] in history;
      TableIsExact(history[..|history| - 1], t);
    }
  }

  class Pool {
    const slots: array<word>
    var isValid: bool
    /** The calls of Set so far. */
    ghost var history: seq<Binding>

    /** Nothing is known about the slots before the first use; from then on the 256 slots a key
        can reach hold the latest bindings and the others are still clear. */
    ghost predicate Valid()
      reads this, slots
    {
      && slots.Length == MAX_IP
      && (!isValid ==> history == [])
      && (isValid ==> forall k :: 0 <= k < SLOTS ==> slots[k] == Latest(history, k))
      && (isValid ==> forall k :: SLOTS <= k < MAX_IP ==> slots[k] == ZERO)
    }

    constructor ()
      ensures Valid() && fresh(slots) && history == [] && !isValid
    {
      slots := new word[MAX_IP](_ => ZERO);
      isValid := false;
      history := [];
    }

    method LazyInit()
      requires Valid() && !isValid
      modifies this, slots
      ensures Valid() && isValid && history == []
      ensures slots.Length == 1024 && forall k :: 0 <= k < 1024 ==> slots[k] == [0, 0, 0, 0]
    {
      for i := 0 to MAX_IP
        invariant forall k :: 0 <= k < i ==> slots[k] == ZERO
        invariant history == []
      {
        slots[i] := ZERO;
      }
      isValid := true;
    }

    method Set(ip: word, id: word)
      requires Valid()
      modifies this, slots
      ensures Valid() && isValid
      ensures history == old(history) + [Binding(ip, id)]
      ensures old(isValid) ==> forall k :: 0 <= k < MAX_IP && k != Key(id) ==> slots[k] == old(slots[k])
    {
      if !isValid {
        LazyInit();
      }
      hide Latest, Key;
      ghost var before := history;
      slots[Key(id)] := ip;
      history := history + [Binding(ip, id)];
      forall k | 0 <= k < SLOTS {
        LatestNext(before, Binding(ip, id), k);
      }
    }

    method Get(id: word) returns (ip: word)
      requires Valid()
      modifies this, slots
      ensures Valid() && isValid
      ensures history == old(history)
      ensures ip == Latest(history, Key(id))
      ensures old(isValid) ==> slots[..] == old(slots[..])
    {
      if !isValid {
        LazyInit();
      }
      ip := slots[Key(id)];
    }
  }
}
