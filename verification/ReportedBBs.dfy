/** The recorder of reported basic blocks: an open-addressing table that has to behave as a set. */
module ReportedBBs {

  type Word32 = x: int | 0 <= x < 0x1_0000_0000
  type Word64 = x: int | 0 <= x < 0x1_0000_0000_0000_0000

  datatype ReportedBB = ReportedBB(bbIndex: Word32, sourceState: Word32, sinkState: Word32)

  /** What a slot compares: the index, and both states in one word. */
  datatype Key = Key(bbIndex: Word32, states: Word64)

  datatype Slot = Slot(used: bool, key: Key)

  const FREE := Slot(false, Key(0, 0))

  type Table = seq<Slot>

  function Pack(e: ReportedBB): Key {
    Key(e.bbIndex, e.sourceState * 0x1_0000_0000 + e.sinkState)
  }

  function Unpack(k: Key): ReportedBB {
    ReportedBB(k.bbIndex, k.states / 0x1_0000_0000, k.states % 0x1_0000_0000)
  }

  function UnpackedKeys(keys: set<Key>): set<ReportedBB> {
    set k | k in keys :: Unpack(k)
  }

  lemma PackedStatesComeBack(e: ReportedBB, k: Key)
    ensures Unpack(Pack(e)) == e && Pack(Unpack(k)) == k
  {
  }

  // ----- Probing: positions from a home slot, wrapping around ------------------------

  function Along(home: nat, d: nat, n: nat): nat
    requires home < n && d < n
  {
    if home + d < n then home + d else home + d - n
  }

  function Distance(home: nat, p: nat, n: nat): (d: nat)
    requires home < n && p < n
    ensures d < n && Along(home, d, n) == p
  {
    if home <= p then p - home else p - home + n
  }

  predicate PowerOfTwo(n: nat) {
    n == 1 || (n > 0 && n % 2 == 0 && PowerOfTwo(n / 2))
  }

  lemma Doubled(n: nat)
    requires PowerOfTwo(n)
    ensures PowerOfTwo(2 * n)
  {
    assert 2 * n / 2 == n;
  }

  function Keys(t: Table): set<Key> {
    set p | 0 <= p < |t| && t[p].used :: t[p].key
  }

  function Used(t: Table): set<nat> {
    set p: nat | p < |t| && t[p].used
  }

  /** Every key is found by probing from its home: no free slot lies before it. */
  ghost predicate Chained(t: Table, home: Key -> nat)
    requires |t| > 0
  {
    forall p, d :: 0 <= p < |t| && t[p].used && 0 <= d < Distance(home(t[p].key) % |t|, p, |t|)
      ==> t[Along(home(t[p].key) % |t|, d, |t|)].used
  }

  ghost predicate Unique(t: Table) {
    forall p, q :: 0 <= p < |t| && 0 <= q < |t| && t[p].used && t[q].used && t[p].key == t[q].key ==> p == q
  }

  ghost predicate Sound(t: Table, home: Key -> nat) {
    |t| > 0 && Chained(t, home) && Unique(t) && |Keys(t)| == |Used(t)|
  }

  /** `p` is the first free slot that probing for `k` reaches, and no slot before it holds `k`. */
  ghost predicate ProbeEnds(t: Table, home: Key -> nat, k: Key, p: nat)
    requires |t| > 0
  {
    && p < |t| && !t[p].used
    && forall d :: 0 <= d < Distance(home(k) % |t|, p, |t|) ==>
         t[Along(home(k) % |t|, d, |t|)].used && t[Along(home(k) % |t|, d, |t|)].key != k
  }

  lemma FreeSlotExists(t: Table) returns (f: nat)
    requires |Used(t)| < |t|
    ensures f < |t| && !t[f].used
  {
    if forall p :: 0 <= p < |t| ==> t[p].used {
      AllUsed(t);
    }
    f :| f < |t| && !t[f].used;
  }

  lemma {:induction false} AllUsed(t: Table)
    requires forall p :: 0 <= p < |t| ==> t[p].used
    ensures |Used(t)| == |t|
  {
    if t == [] {
      assert Used(t) == {};
    } else {
      var u := t[..|t| - 1];
      AllUsed(u);
      assert Used(t) == Used(u) + {|t| - 1};
    }
  }

  /** A probe that ends in a free slot proves the key absent. */
  lemma ProbedKeyIsAbsent(t: Table, home: Key -> nat, k: Key, p: nat)
    requires |t| > 0 && Chained(t, home) && ProbeEnds(t, home, k, p)
    ensures k !in Keys(t)
  {
    var h := home(k) % |t|;
    var dp := Distance(h, p, |t|);
    forall q | 0 <= q < |t| && t[q].used
      ensures t[q].key != k
    {
      var dq := Distance(h, q, |t|);
      assert dq < dp ==> t[Along(h, dq, |t|)].key != k;
      if dp < dq {
        assert !(t[q].key == k);
      }
    }
  }

  lemma InsertAddsKey(t: Table, k: Key, p: nat)
    requires p < |t| && !t[p].used
    ensures var u := t[p := Slot(true, k)]; Keys(u) == Keys(t) + {k} && Used(u) == Used(t) + {p}
  {
    var u := t[p := Slot(true, k)];
    assert u[p].used && u[p].key == k;
    forall x | x in Keys(t) ensures x in Keys(u) {
      var q :| 0 <= q < |t| && t[q].used && t[q].key == x;
      assert u[q] == t[q];
    }
    forall x | x in Keys(u) ensures x in Keys(t) + {k} {
      var q :| 0 <= q < |u| && u[q].used && u[q].key == x;
      assert q != p ==> u[q] == t[q];
    }
  }

  lemma InsertKeepsChained(t: Table, home: Key -> nat, k: Key, p: nat)
    requires |t| > 0 && Chained(t, home) && ProbeEnds(t, home, k, p)
    ensures Chained(t[p := Slot(true, k)], home)
  {}

  lemma InsertKeepsSound(t: Table, home: Key -> nat, k: Key, p: nat)
    requires Sound(t, home) && ProbeEnds(t, home, k, p)
    ensures var u := t[p := Slot(true, k)];
            Sound(u, home) && Keys(u) == Keys(t) + {k} && k !in Keys(t) && |Used(u)| == |Used(t)| + 1
  {
    ProbedKeyIsAbsent(t, home, k, p);
    InsertAddsKey(t, k, p);
    InsertKeepsChained(t, home, k, p);
    forall q | 0 <= q < |t| && t[q].used ensures t[q].key != k {
      assert t[q].key in Keys(t);
    }
  }

  lemma FreeTable(t: Table, home: Key -> nat)
    requires |t| > 0 && forall p :: 0 <= p < |t| ==> !t[p].used
    ensures Sound(t, home) && Keys(t) == {} && Used(t) == {}
  {}

  // ----- The recorder ---------------------------------------------------------------

  class ReportedBBRecorder {
    /** The mixing function; the table is right for every one. */
    const hash: Key -> nat
    var slots: array<Slot>
    var count: nat

    ghost predicate Valid()
      reads this, slots
    {
      && Sound(slots[..], hash)
      && PowerOfTwo(slots.Length)
      && count == |Used(slots[..])|
      && 2 * count <= slots.Length
    }

    /** The executions recorded, as a set. */
    ghost function Recorded(): set<ReportedBB>
      reads this, slots
    {
      UnpackedKeys(Keys(slots[..]))
    }

    constructor (hash: Key -> nat)
      ensures Valid() && fresh(slots) && Recorded() == {} && slots.Length == 1024
    {
      this.hash := hash;
      slots := new Slot[1024](_ => FREE);
      count := 0;
      new;
      FreeTable(slots[..], hash);
      assert PowerOfTwo(4) && PowerOfTwo(16) && PowerOfTwo(64) && PowerOfTwo(256);
    }

    /** Records an execution; recording it again changes nothing. */
    method Record(bbIndex: Word32, sourceState: Word32, sinkState: Word32)
      requires Valid()
      modifies this, slots
      ensures Valid() && (slots == old(slots) || fresh(slots))
      ensures Recorded() == old(Recorded()) + {ReportedBB(bbIndex, sourceState, sinkState)}
    {
      var e := ReportedBB(bbIndex, sourceState, sinkState);
      var k := Pack(e);
      PackedStatesComeBack(e, k);
      var n := slots.Length;
      ghost var f := FreeSlotExists(slots[..]);
      ghost var t := slots[..];
      var pos := hash(k) % n;
      ghost var h, d := pos, 0;
      while true
        invariant slots == old(slots) && slots[..] == t && count == old(count)
        invariant 0 <= d <= Distance(h, f, n) && pos == Along(h, d, n)
        invariant forall i :: 0 <= i < d ==> t[Along(h, i, n)].used && t[Along(h, i, n)].key != k
        decreases n - d
      {
        if !slots[pos].used {
          assert Distance(h, pos, n) == d;
          Add(k, pos);
          return;
        }
        if slots[pos].key == k {
          assert k in Keys(t);
          assert e in old(Recorded());
          return;
        }
        pos := if pos + 1 == n then 0 else pos + 1;
        d := d + 1;
      }
    }

    /** Takes the free slot that probing ended in; doubles a table more than half full. */
    method Add(k: Key, pos: nat)
      requires Valid() && ProbeEnds(slots[..], hash, k, pos)
      modifies this, slots
      ensures Valid() && (slots == old(slots) || fresh(slots))
      ensures Recorded() == old(Recorded()) + {Unpack(k)}
      ensures slots.Length == if 2 * count > old(slots.Length) then 2 * old(slots.Length) else old(slots.Length)
    {
      ghost var t := slots[..];
      InsertKeepsSound(t, hash, k, pos);
      slots[pos] := Slot(true, k);
      assert slots[..] == t[pos := Slot(true, k)];
      count := count + 1;
      if 2 * count > slots.Length {
        Grow();
      }
    }

    /** Doubles the table and puts every used slot where probing will find it. */
    method Grow()
      requires Sound(slots[..], hash) && PowerOfTwo(slots.Length)
      requires count == |Used(slots[..])| <= slots.Length
      modifies this`slots
      ensures Valid() && fresh(slots) && count == old(count) && slots.Length == 2 * old(slots.Length)
      ensures Keys(slots[..]) == old(Keys(slots[..]))
    {
      var previous := slots;
      ghost var was := previous[..];
      slots := new Slot[previous.Length * 2](_ => FREE);
      FreeTable(slots[..], hash);
      Doubled(previous.Length);
      for i := 0 to previous.Length
        invariant fresh(slots) && slots.Length == 2 * previous.Length && previous[..] == was
        invariant Sound(slots[..], hash) && HoldsKeysOf(slots[..], was[..i])
      {
        PrefixExtends(was, i);
        UsedIsBounded(was[..i]);
        if previous[i].used {
          KeyIsNew(was, i);
          Reinsert(previous[i]);
        }
      }
      assert was[..previous.Length] == was;
    }

    /** Puts a used slot of the previous table into this one. */
    method Reinsert(slot: Slot)
      requires Sound(slots[..], hash) && |Used(slots[..])| < slots.Length
      requires slot.used && slot.key !in Keys(slots[..])
      modifies slots
      ensures Sound(slots[..], hash)
      ensures Keys(slots[..]) == old(Keys(slots[..])) + {slot.key}
      ensures |Used(slots[..])| == old(|Used(slots[..])|) + 1
    {
      var pos := FreeSlotFor(slot.key);
      ghost var t := slots[..];
      InsertKeepsSound(t, hash, slot.key, pos);
      slots[pos] := slot;
      assert slots[..] == t[pos := Slot(true, slot.key)];
    }

    /** The first free slot from the home of a key that is not in the table. */
    method FreeSlotFor(k: Key) returns (pos: nat)
      requires Sound(slots[..], hash) && |Used(slots[..])| < slots.Length && k !in Keys(slots[..])
      ensures ProbeEnds(slots[..], hash, k, pos)
    {
      var n := slots.Length;
      ghost var t := slots[..];
      ghost var f := FreeSlotExists(t);
      pos := hash(k) % n;
      ghost var h, d := pos, 0;
      while slots[pos].used
        invariant 0 <= d <= Distance(h, f, n) && pos == Along(h, d, n)
        invariant forall i :: 0 <= i < d ==> t[Along(h, i, n)].used
        decreases n - d
      {
        pos := if pos + 1 == n then 0 else pos + 1;
        d := d + 1;
      }
      assert Distance(h, pos, n) == d;
      forall i | 0 <= i < d ensures t[Along(h, i, n)].key != k {
        assert t[Along(h, i, n)].key in Keys(t);
      }
    }

    /** The number of recorded executions. */
    method Size() returns (n: nat)
      requires Valid()
      ensures n == |Recorded()|
    {
      n := count;
      UnpackedAsMany(Keys(slots[..]));
    }

    method GetExecutions() returns (executions: set<ReportedBB>)
      requires Valid()
      ensures executions == Recorded()
    {
      executions := {};
      ghost var t := slots[..];
      for i := 0 to slots.Length
        invariant executions == UnpackedKeys(Keys(t[..i]))
      {
        PrefixExtends(t, i);
        if slots[i].used {
          executions := executions + {Unpack(slots[i].key)};
        }
      }
      assert t[..slots.Length] == t;
    }
  }

  lemma PrefixExtends(t: Table, i: nat)
    requires i < |t|
    ensures Keys(t[..i + 1]) == Keys(t[..i]) + if t[i].used then {t[i].key} else {}
    ensures |Used(t[..i + 1])| == |Used(t[..i])| + if t[i].used then 1 else 0
  {
    assert t[..i + 1] == t[..i] + [t[i]];
    KeysExtend(t[..i], t[i]);
    UsedExtend(t[..i], t[i]);
  }

  lemma KeyIsNew(t: Table, i: nat)
    requires Unique(t) && i < |t| && t[i].used
    ensures t[i].key !in Keys(t[..i])
  {}

  ghost predicate HoldsKeysOf(t: Table, u: Table) {
    Keys(t) == Keys(u) && |Used(t)| == |Used(u)|
  }

  lemma {:induction false} UsedIsBounded(t: Table)
    ensures |Used(t)| <= |t|
  {
    if t == [] {
      assert Used(t) == {};
    } else {
      var u := t[..|t| - 1];
      UsedIsBounded(u);
      assert t == u + [t[|t| - 1]];
      UsedExtend(u, t[|t| - 1]);
    }
  }

  lemma KeysExtend(t: Table, s: Slot)
    ensures Keys(t + [s]) == Keys(t) + if s.used then {s.key} else {}
  {
    var u := t + [s];
    assert u[|t|] == s;
    assert forall p {:trigger t[p]} :: 0 <= p < |t| ==> u[p] == t[p];
    forall k ensures k in Keys(u) <==> k in Keys(t) || (s.used && k == s.key) {
      if k in Keys(t) {
        var p :| 0 <= p < |t| && t[p].used && t[p].key == k;
        assert u[p].used;
      }
    }
  }

  lemma UsedExtend(t: Table, s: Slot)
    ensures |Used(t + [s])| == |Used(t)| + if s.used then 1 else 0
  {
    assert Used(t + [s]) == Used(t) + if s.used then {|t|} else {};
  }

  lemma {:induction false} UnpackedAsMany(keys: set<Key>)
    ensures |UnpackedKeys(keys)| == |keys|
  {
    if k :| k in keys {
      var rest := keys - {k};
      UnpackedAsMany(rest);
      var es := set x | x in rest :: Unpack(x);
      forall x | x in rest ensures Unpack(x) != Unpack(k) {
        PackedStatesComeBack(Unpack(k), k);
        PackedStatesComeBack(Unpack(x), x);
      }
      assert (set x | x in keys :: Unpack(x)) == es + {Unpack(k)};
    } else {
      assert (set k | k in keys :: Unpack(k)) == {};
    }
  }
}
