/** The circular doubly linked lists of libuzi/interlocked.c. */
module DoublyLinkedList {
  import opened Sequences

  class Entry {
    var flink: Entry?
    var blink: Entry?

    constructor () { flink, blink := null, null; }
  }

  function After(n: nat, i: nat): (j: nat)
    requires i < n
    ensures j < n
  {
    if i + 1 < n then i + 1 else 0
  }

  function Before(n: nat, i: nat): (j: nat)
    requires i < n
    ensures j < n
  {
    if i > 0 then i - 1 else n - 1
  }

  /** Node i of the ring points to its neighbours. */
  ghost predicate At(s: seq<Entry>, i: nat)
    requires i < |s|
    reads s
  {
    s[i].flink == s[After(|s|, i)] && s[i].blink == s[Before(|s|, i)]
  }

  /** The nodes of `s` form one ring, in that order. A list is such a ring that starts with its head. */
  ghost predicate Ring(s: seq<Entry>)
    reads s
  {
    s != [] && Distinct(s) && forall i | 0 <= i < |s| :: At(s, i)
  }

  /** The links of a ring are each other's inverse. */
  lemma LinksAreInverse(s: seq<Entry>, i: nat)
    requires Ring(s) && i < |s|
    ensures var x := s[i];
            && x.flink != null && x.blink != null
            && x.flink in s && x.flink.blink == x && x.blink in s && x.blink.flink == x
  {
    assert At(s, i);
    assert At(s, After(|s|, i));
    assert At(s, Before(|s|, i));
  }

  /** Only a node alone, or one of two, has the same neighbour on both sides. */
  lemma SameNeighbours(s: seq<Entry>, k: nat)
    requires Ring(s) && k < |s|
    ensures s[k].flink == s[k].blink <==> |s| <= 2
  {
    assert At(s, k);
    OthersDiffer(s, After(|s|, k));
  }

  /** InitializeListHead. */
  method InitializeListHead(listHead: Entry)
    modifies listHead
    ensures Ring([listHead])
  {
    listHead.blink := listHead;
    listHead.flink := listHead.blink;
  }

  /** IsListEmpty. */
  method IsListEmpty(listHead: Entry, ghost s: seq<Entry>) returns (empty: bool)
    requires Ring(s) && listHead == s[0]
    ensures empty <==> s == [listHead]
  {
    assert At(s, 0);
    OthersDiffer(s, 0);
    empty := listHead.flink == listHead;
  }

  /** What is left of a ring without node k; a node alone stays a ring of its own. */
  function Rest<T>(s: seq<T>, k: nat): seq<T>
    requires k < |s|
  {
    if |s| == 1 then s else Without(s, k)
  }

  /** RemoveEntryList, for the node at position k. */
  method RemoveEntryList(entry: Entry, ghost s: seq<Entry>, ghost k: nat) returns (last: bool)
    requires Ring(s) && k < |s| && entry == s[k]
    modifies entry.flink, entry.blink
    ensures Ring(Rest(s, k)) && (|s| > 1 ==> Ring(s[..k] + s[k + 1..]))
    ensures last <==> |s| <= 2
  {
    SameNeighbours(s, k);
    assert At(s, k);
    OthersDiffer(s, After(|s|, k));
    OthersDiffer(s, Before(|s|, k));
    WithoutDistinct(s, k);
    var oldFlink := entry.flink;
    var oldBlink := entry.blink;
    oldFlink.blink := oldBlink;
    oldBlink.flink := oldFlink;
    last := oldFlink == oldBlink;
    if |s| == 1 {
      assert At(s, 0);
    } else {
      ghost var now := Without(s, k);
      forall i | 0 <= i < |now| ensures At(now, i) {
        assert old(At(s, if i < k then i else i + 1));
      }
    }
  }

  /** RemoveHeadList: the first entry of the list, or the head of an empty one. */
  method RemoveHeadList(listHead: Entry, ghost s: seq<Entry>) returns (entry: Entry)
    requires Ring(s) && listHead == s[0]
    modifies listHead, listHead.flink, s[After(|s|, After(|s|, 0))]
    ensures Ring(Rest(s, After(|s|, 0)))
    ensures if |s| == 1 then entry == listHead else entry == s[1] && Ring([listHead] + s[2..])
  {
    ghost var k := After(|s|, 0);
    assert At(s, 0) && At(s, k);
    OthersDiffer(s, 0);
    OthersDiffer(s, After(|s|, k));
    WithoutDistinct(s, k);
    entry := listHead.flink;
    var flink := entry.flink;
    listHead.flink := flink;
    flink.blink := listHead;
    ghost var now := Rest(s, k);
    forall i | 0 <= i < |now| ensures At(now, i) {
      assert old(At(s, if i < k || |s| == 1 then i else i + 1));
    }
    assert |s| > 1 ==> now == [listHead] + s[2..];
  }

  /** RemoveTailList: the last entry of the list, or the head of an empty one. */
  method RemoveTailList(listHead: Entry, ghost s: seq<Entry>) returns (entry: Entry)
    requires Ring(s) && listHead == s[0]
    modifies listHead, listHead.blink, s[Before(|s|, |s| - 1)]
    ensures entry == s[|s| - 1] && Ring(Rest(s, |s| - 1)) && (|s| > 1 ==> Ring(s[..|s| - 1]))
  {
    ghost var k := |s| - 1;
    assert At(s, 0) && At(s, k);
    OthersDiffer(s, 0);
    OthersDiffer(s, Before(|s|, k));
    WithoutDistinct(s, k);
    entry := listHead.blink;
    var blink := entry.blink;
    listHead.blink := blink;
    blink.flink := listHead;
    ghost var now := Rest(s, k);
    forall i | 0 <= i < |now| ensures At(now, i) {
      assert old(At(s, i));
    }
    assert |s| > 1 ==> now == s[..|s| - 1];
  }

  lemma Apart<T>(s: seq<T>, t: seq<T>)
    requires forall x | x in t :: x !in s
    ensures forall i, j | 0 <= i < |s| && 0 <= j < |t| :: s[i] != t[j]
  {
    forall i, j | 0 <= i < |s| && 0 <= j < |t| ensures s[i] != t[j] {
      assert s[i] in s && t[j] in t;
    }
  }

  lemma AddedDistinct<T>(s: seq<T>, t: seq<T>, k: nat)
    requires Distinct(s) && Distinct(t) && k <= |s| && (forall x | x in t :: x !in s)
    ensures Distinct(s[..k] + t + s[k..])
  {
    var now := s[..k] + t + s[k..];
    Apart(s, t);
    forall i, j | 0 <= i < j < |now| ensures Differ(now, i, j) {
      if k <= i < k + |t| {
        if j < k + |t| { assert Differ(t, i - k, j - k); } else { assert s[j - |t|] != t[i - k]; }
      } else if k <= j < k + |t| {
        assert s[i] != t[j - k];
      } else {
        assert Differ(s, if i < k then i else i - |t|, if j < k then j else j - |t|);
      }
    }
  }

  /** InsertHeadList: the entry comes first, right behind the head. */
  method InsertHeadList(listHead: Entry, entry: Entry, ghost s: seq<Entry>)
    requires Ring(s) && listHead == s[0] && entry !in s
    modifies listHead, entry, listHead.flink
    ensures Ring([listHead, entry] + s[1..])
  {
    assert At(s, 0);
    OthersDiffer(s, 0);
    OthersDiffer(s, After(|s|, 0));
    AddedDistinct(s, [entry], 1);
    ghost var now := [listHead, entry] + s[1..];
    assert now == s[..1] + [entry] + s[1..];
    var oldFlink := listHead.flink;
    entry.flink := oldFlink;
    entry.blink := listHead;
    oldFlink.blink := entry;
    listHead.flink := entry;
    forall i | 0 <= i < |now| ensures At(now, i) {
      if i != 1 { assert old(At(s, if i == 0 then 0 else i - 1)); }
    }
  }

  /** InsertTailList: the entry comes last. */
  method InsertTailList(listHead: Entry, entry: Entry, ghost s: seq<Entry>)
    requires Ring(s) && listHead == s[0] && entry !in s
    modifies listHead, entry, listHead.blink
    ensures Ring(s + [entry])
  {
    assert At(s, 0);
    OthersDiffer(s, 0);
    OthersDiffer(s, |s| - 1);
    AddedDistinct(s, [entry], |s|);
    ghost var now := s + [entry];
    assert now == s[..|s|] + [entry] + s[|s|..];
    var oldBlink := listHead.blink;
    entry.flink := listHead;
    entry.blink := oldBlink;
    oldBlink.flink := entry;
    listHead.blink := entry;
    forall i | 0 <= i < |now| ensures At(now, i) {
      if i < |s| { assert old(At(s, i)); }
    }
  }

  /** AppendTailList: a whole ring, which has no head of its own, comes last, in its order. */
  method AppendTailList(listHead: Entry, listToAppend: Entry, ghost s: seq<Entry>, ghost t: seq<Entry>)
    requires Ring(s) && listHead == s[0] && Ring(t) && listToAppend == t[0]
    requires forall x | x in t :: x !in s
    modifies listHead, listHead.blink, listToAppend, listToAppend.blink
    ensures Ring(s + t)
  {
    assert At(s, 0) && At(t, 0);
    OthersDiffer(s, 0);
    OthersDiffer(s, |s| - 1);
    OthersDiffer(t, 0);
    OthersDiffer(t, |t| - 1);
    AddedDistinct(s, t, |s|);
    ghost var now := s + t;
    assert now == s[..|s|] + t + s[|s|..];
    Apart(s, t);
    var listEnd := listHead.blink;
    listHead.blink.flink := listToAppend;
    listHead.blink := listToAppend.blink;
    listToAppend.blink.flink := listHead;
    listToAppend.blink := listEnd;
    forall i | 0 <= i < |now| ensures At(now, i) {
      if i < |s| { assert old(At(s, i)); } else { assert old(At(t, i - |s|)); }
    }
  }
}
