/** The kernel's circular doubly linked list: each pointer operation as its operation on the
    sequence of entries, list head first. */
module IntrusiveList {

  class Node {
    var next: Node?
    var prev: Node?

    constructor ()
      ensures next == null && prev == null
    {
      next, prev := null, null;
    }
  }

  ghost predicate Distinct(s: seq<Node>) {
    forall i, j | 0 <= i < j < |s| :: s[i] != s[j]
  }

  /** The nodes of `s`, in this order and back to the first, are linked both ways. */
  ghost predicate Ring(s: seq<Node>)
    reads s
  {
    && |s| > 0
    && Distinct(s)
    && (forall i {:trigger s[i].next} | 0 <= i < |s| - 1 :: s[i].next == s[i + 1])
    && (forall i {:trigger s[i].prev} | 1 <= i < |s| :: s[i].prev == s[i - 1])
    && s[|s| - 1].next == s[0]
    && s[0].prev == s[|s| - 1]
  }

  method InitListHead(list: Node)
    modifies list
    ensures Ring([list])
  {
    list.next := list;
    list.prev := list;
  }

  /** Link `entry` in after the node at place k. */
  method ListAdd(entry: Node, at: Node, ghost s: seq<Node>, ghost k: nat)
    requires Ring(s) && k < |s| && at == s[k] && entry !in s
    modifies s, entry
    ensures Ring(s[..k + 1] + [entry] + s[k + 1..])
  {
    LinkBetween(entry, at, at.next, s, k);
  }

  method LinkBetween(entry: Node, prev: Node, next: Node?, ghost s: seq<Node>, ghost k: nat)
    requires Ring(s) && k < |s| && prev == s[k] && entry !in s
    requires next == if k + 1 < |s| then s[k + 1] else s[0]
    modifies s, entry
    ensures Ring(s[..k + 1] + [entry] + s[k + 1..])
  {
    next.prev := entry;
    entry.next := next;
    entry.prev := prev;
    prev.next := entry;
  }

  /** Link `entry` in before the list head: at the end of the list. */
  method ListAddTail(entry: Node, head: Node, ghost s: seq<Node>)
    requires Ring(s) && head == s[0] && entry !in s
    modifies s, entry
    ensures Ring(s + [entry])
  {
    LinkBetween(entry, head.prev, head, s, |s| - 1);
    assert s[..|s|] + [entry] + s[|s|..] == s + [entry];
  }

  ghost function Without(s: seq<Node>, k: nat): seq<Node>
    requires k < |s|
  {
    s[..k] + s[k + 1..]
  }

  /** Unlink the entry at place k; its own pointers are left alone. */
  method UnlinkEntry(entry: Node, ghost s: seq<Node>, ghost k: nat)
    requires Ring(s) && 1 <= k < |s| && entry == s[k]
    modifies s
    ensures Ring(Without(s, k))
    ensures entry.next == old(entry.next) && entry.prev == old(entry.prev)
  {
    var prev, next := entry.prev, entry.next;
    next.prev := prev;
    prev.next := next;
  }

  method ListDel(entry: Node, ghost s: seq<Node>, ghost k: nat)
    requires Ring(s) && 1 <= k < |s| && entry == s[k]
    modifies s
    ensures Ring(Without(s, k)) && entry.next == null && entry.prev == null
  {
    UnlinkEntry(entry, s, k);
    entry.next := null;
    entry.prev := null;
  }

  method ListDelInit(entry: Node, ghost s: seq<Node>, ghost k: nat)
    requires Ring(s) && 1 <= k < |s| && entry == s[k]
    modifies s
    ensures Ring(Without(s, k)) && Ring([entry])
  {
    UnlinkEntry(entry, s, k);
    InitListHead(entry);
  }

  /** The new node takes the old one's place, even when the old one is alone. */
  method ListReplace(oldNode: Node, newNode: Node, ghost s: seq<Node>, ghost k: nat)
    requires Ring(s) && k < |s| && oldNode == s[k] && newNode !in s
    modifies s, newNode
    ensures Ring(s[k := newNode])
  {
    newNode.next := oldNode.next;
    newNode.next.prev := newNode;
    newNode.prev := oldNode.prev;
    newNode.prev.next := newNode;
  }

  method ListReplaceInit(oldNode: Node, newNode: Node, ghost s: seq<Node>, ghost k: nat)
    requires Ring(s) && k < |s| && oldNode == s[k] && newNode !in s
    modifies s, newNode
    ensures Ring(s[k := newNode]) && Ring([oldNode])
  {
    ListReplace(oldNode, newNode, s, k);
    InitListHead(oldNode);
  }

  ghost predicate Apart(s: seq<Node>, t: seq<Node>) {
    (forall i | 0 <= i < |s| :: s[i] !in t) && (forall i | 0 <= i < |t| :: t[i] !in s)
  }

  /** Take the entry at place k of one list to the front of another. */
  method ListMove(entry: Node, head: Node, ghost s: seq<Node>, ghost k: nat, ghost t: seq<Node>)
    requires Ring(s) && 1 <= k < |s| && entry == s[k]
    requires Ring(t) && head == t[0] && Apart(s, t)
    modifies s, t
    ensures Ring(Without(s, k)) && Ring([head, entry] + t[1..])
  {
    UnlinkEntry(entry, s, k);
    ListAdd(entry, head, t, 0);
    assert t[..1] + [entry] + t[1..] == [head, entry] + t[1..];
  }

  /** The same within one list. */
  method ListMoveSelf(entry: Node, head: Node, ghost s: seq<Node>, ghost k: nat)
    requires Ring(s) && 1 <= k < |s| && entry == s[k] && head == s[0]
    modifies s
    ensures Ring([head, entry] + s[1..k] + s[k + 1..])
  {
    UnlinkEntry(entry, s, k);
    ghost var t := Without(s, k);
    ListAdd(entry, head, t, 0);
    assert t[..1] + [entry] + t[1..] == [head, entry] + s[1..k] + s[k + 1..];
  }

  /** Take the entry at place k of one list to the end of another. */
  method ListMoveTail(entry: Node, head: Node, ghost s: seq<Node>, ghost k: nat, ghost t: seq<Node>)
    requires Ring(s) && 1 <= k < |s| && entry == s[k]
    requires Ring(t) && head == t[0] && Apart(s, t)
    modifies s, t
    ensures Ring(Without(s, k)) && Ring(t + [entry])
  {
    UnlinkEntry(entry, s, k);
    ListAddTail(entry, head, t);
  }

  method ListMoveTailSelf(entry: Node, head: Node, ghost s: seq<Node>, ghost k: nat)
    requires Ring(s) && 1 <= k < |s| && entry == s[k] && head == s[0]
    modifies s
    ensures Ring(Without(s, k) + [entry])
  {
    UnlinkEntry(entry, s, k);
    ListAddTail(entry, head, Without(s, k));
  }

  /** Rotating: the first entry becomes the last; an empty list stays empty. */
  method ListRotateLeft(head: Node, ghost s: seq<Node>)
    requires Ring(s) && head == s[0]
    modifies s
    ensures Ring(if |s| == 1 then s else [head] + s[2..] + [s[1]])
  {
    if head.next != head {
      assert |s| > 1;
      ListMoveTailSelf(head.next, head, s, 1);
      assert Without(s, 1) + [s[1]] == [head] + s[2..] + [s[1]];
    }
  }

  predicate ListEmpty(head: Node)
    reads head
  {
    head.next == head
  }

  predicate ListIsSingular(head: Node)
    reads head
  {
    !ListEmpty(head) && head.next == head.prev
  }

  /** The tests on the head's pointers are tests on the number of entries. */
  lemma HeadTests(head: Node, s: seq<Node>)
    requires Ring(s) && head == s[0]
    ensures ListEmpty(head) <==> |s| == 1
    ensures ListIsSingular(head) <==> |s| == 2
  {
    if |s| >= 2 { assert s[0].next == s[1]; }
  }

  /** Following next and then prev, or prev and then next, leads back. */
  lemma NextPrevInverse(s: seq<Node>, i: nat)
    requires Ring(s) && i < |s|
    ensures s[i].next in s && s[i].prev in s
    ensures s[i].next != null && s[i].prev != null && s[i].next.prev == s[i] && s[i].prev.next == s[i]
  {
    if i + 1 < |s| { assert s[i].next == s[i + 1]; }
    if i > 0 { assert s[i].prev == s[i - 1]; }
  }

  /** The entries up to and including place k move to `list`; with the head itself as the
      entry nothing moves, and an empty list is left alone altogether. */
  method ListCutPosition(list: Node, head: Node, entry: Node, ghost s: seq<Node>, ghost k: nat)
    requires Ring(s) && head == s[0] && k < |s| && entry == s[k] && list !in s
    modifies s, list
    ensures |s| == 1 ==> list.next == old(list.next) && list.prev == old(list.prev) && Ring(s)
    ensures |s| > 1 ==> Ring([list] + s[1..k + 1]) && Ring([head] + s[k + 1..])
  {
    HeadTests(head, s);
    if ListEmpty(head) { return; }
    if ListIsSingular(head) && head.next != entry && head != entry { return; }
    if entry == head {
      InitListHead(list);
      assert [list] + s[1..1] == [list] && [head] + s[1..] == s;
    } else {
      CutAt(list, head, entry, s, k);
    }
  }

  lemma CutDistinct(list: Node, s: seq<Node>, k: nat)
    requires Distinct(s) && 1 <= k < |s| && list !in s
    ensures Distinct([list] + s[1..k + 1]) && Distinct([s[0]] + s[k + 1..])
  {
  }

  lemma FrontAt(list: Node, s: seq<Node>, k: nat, i: nat)
    requires i <= k < |s|
    ensures ([list] + s[1..k + 1])[i] == if i == 0 then list else s[i]
  {
  }

  lemma BackAt(head: Node, s: seq<Node>, k: nat, i: nat)
    requires k < |s| && i < |s| - k
    ensures ([head] + s[k + 1..])[i] == if i == 0 then head else s[k + i]
  {
  }

  method CutAt(list: Node, head: Node, entry: Node, ghost s: seq<Node>, ghost k: nat)
    requires Ring(s) && head == s[0] && 1 <= k < |s| && entry == s[k] && list !in s
    modifies s, list
    ensures Ring([list] + s[1..k + 1]) && Ring([head] + s[k + 1..])
  {
    CutDistinct(list, s, k);
    var newFirst := entry.next;
    assert newFirst == After(s, k) && head.next == s[1];
    list.next := head.next;
    list.next.prev := list;
    list.prev := entry;
    entry.next := list;
    head.next := newFirst;
    newFirst.prev := head;
    ghost var front: seq<Node>, back: seq<Node> := [list] + s[1..k + 1], [head] + s[k + 1..];
    forall i | 0 <= i < |front| - 1
      ensures front[i].next == front[i + 1] && front[i + 1].prev == front[i]
    {
      FrontAt(list, s, k, i);
      FrontAt(list, s, k, i + 1);
    }
    forall i | 0 <= i < |back| - 1
      ensures back[i].next == back[i + 1] && back[i + 1].prev == back[i]
    {
      BackAt(head, s, k, i);
      BackAt(head, s, k, i + 1);
    }
    FrontAt(list, s, k, k);
    BackAt(head, s, k, |back| - 1);
  }

  /** Which node stands where once the entries of `t` are in after place k of `s`. */
  lemma SpliceAt(t: seq<Node>, s: seq<Node>, k: nat, i: nat)
    requires |t| > 0 && k < |s| && i < |s| + |t| - 1
    ensures (s[..k + 1] + t[1..] + s[k + 1..])[i] ==
            if i <= k then s[i] else if i < k + |t| then t[i - k] else s[i - (|t| - 1)]
  {
  }

  lemma SpliceDistinct(t: seq<Node>, s: seq<Node>, k: nat)
    requires Distinct(t) && |t| > 0 && Distinct(s) && k < |s| && Apart(s, t)
    ensures Distinct(s[..k + 1] + t[1..] + s[k + 1..])
    ensures t[0] !in s[..k + 1] + t[1..] + s[k + 1..]
  {
    var r := s[..k + 1] + t[1..] + s[k + 1..];
    var m := |t| - 1;
    forall i, j | 0 <= i < j < |r|
      ensures r[i] != r[j]
    {
      assert k < i <= k + m ==> r[i] == t[i - k] && r[i] !in s;
      assert k < j <= k + m ==> r[j] == t[j - k] && r[j] !in s;
      assert i <= k ==> r[i] == s[i];
      assert j <= k ==> r[j] == s[j];
      assert i > k + m ==> r[i] == s[i - m];
      assert j > k + m ==> r[j] == s[j - m];
    }
    forall i | 0 <= i < |r|
      ensures r[i] != t[0]
    {
      assert k < i <= k + m ==> r[i] == t[i - k];
      assert i <= k ==> r[i] == s[i];
      assert i > k + m ==> r[i] == s[i - m];
    }
  }

  /** The entries of one list go in after the node at place k of another. */
  method SpliceBetween(list: Node, prev: Node, next: Node, ghost t: seq<Node>, ghost s: seq<Node>, ghost k: nat)
    requires Ring(t) && |t| > 1 && list == t[0]
    requires Ring(s) && k < |s| && prev == s[k] && next == (if k + 1 < |s| then s[k + 1] else s[0])
    requires Apart(s, t)
    modifies s, t
    ensures Ring(s[..k + 1] + t[1..] + s[k + 1..])
    ensures list.next == old(list.next) && list.prev == old(list.prev)
  {
    SpliceDistinct(t, s, k);
    var first, last := list.next, list.prev;
    assert first == t[1] && last == t[|t| - 1];
    first.prev := prev;
    prev.next := first;
    last.next := next;
    next.prev := last;
    ghost var r := s[..k + 1] + t[1..] + s[k + 1..];
    forall i | 0 <= i < |r| - 1
      ensures r[i].next == r[i + 1] && r[i + 1].prev == r[i]
    {
      SpliceAt(t, s, k, i);
      SpliceAt(t, s, k, i + 1);
    }
    SpliceAt(t, s, k, 0);
    SpliceAt(t, s, k, |r| - 1);
  }

  method ListSplice(list: Node, head: Node, ghost t: seq<Node>, ghost s: seq<Node>)
    requires Ring(t) && list == t[0] && Ring(s) && head == s[0] && Apart(s, t)
    modifies s, t
    ensures Ring([head] + t[1..] + s[1..])
    ensures list.next == old(list.next) && list.prev == old(list.prev)
  {
    HeadTests(list, t);
    if !ListEmpty(list) {
      SpliceBetween(list, head, head.next, t, s, 0);
      assert s[..1] + t[1..] + s[1..] == [head] + t[1..] + s[1..];
    } else {
      assert [head] + t[1..] + s[1..] == s;
    }
  }

  method ListSpliceTail(list: Node, head: Node, ghost t: seq<Node>, ghost s: seq<Node>)
    requires Ring(t) && list == t[0] && Ring(s) && head == s[0] && Apart(s, t)
    modifies s, t
    ensures Ring(s + t[1..])
    ensures list.next == old(list.next) && list.prev == old(list.prev)
  {
    HeadTests(list, t);
    if !ListEmpty(list) {
      SpliceBetween(list, head.prev, head, t, s, |s| - 1);
      assert s[..|s|] + t[1..] + s[|s|..] == s + t[1..];
    } else {
      assert s + t[1..] == s;
    }
  }

  method ListSpliceInit(list: Node, head: Node, ghost t: seq<Node>, ghost s: seq<Node>)
    requires Ring(t) && list == t[0] && Ring(s) && head == s[0] && Apart(s, t)
    modifies s, t
    ensures Ring([head] + t[1..] + s[1..]) && Ring([list])
  {
    HeadTests(list, t);
    if !ListEmpty(list) {
      ListSplice(list, head, t, s);
      SpliceDistinct(t, s, 0);
      assert s[..1] + t[1..] + s[1..] == [head] + t[1..] + s[1..];
      InitListHead(list);
    } else {
      assert t == [list] && [head] + t[1..] + s[1..] == s;
    }
  }

  method ListSpliceTailInit(list: Node, head: Node, ghost t: seq<Node>, ghost s: seq<Node>)
    requires Ring(t) && list == t[0] && Ring(s) && head == s[0] && Apart(s, t)
    modifies s, t
    ensures Ring(s + t[1..]) && Ring([list])
  {
    HeadTests(list, t);
    if !ListEmpty(list) {
      ListSpliceTail(list, head, t, s);
      SpliceDistinct(t, s, |s| - 1);
      assert s[..|s|] + t[1..] + s[|s|..] == s + t[1..];
      InitListHead(list);
    } else {
      assert t == [list] && s + t[1..] == s;
    }
  }

  /** Cutting a list at any entry, or at its head, into an empty list and splicing the piece
      back restores every link. */
  method CutThenSplice(list: Node, head: Node, entry: Node, ghost s: seq<Node>, ghost k: nat)
    requires Ring(s) && head == s[0] && k < |s| && entry == s[k]
    requires Ring([list]) && list !in s
    modifies s, list
    ensures Ring(s)
    ensures forall i: nat | i < |s| :: s[i].next == old(s[i].next) && s[i].prev == old(s[i].prev)
  {
    RingLinks(s);
    CutAndBack(list, head, entry, s, k);
    RingLinks(s);
  }

  method CutAndBack(list: Node, head: Node, entry: Node, ghost s: seq<Node>, ghost k: nat)
    requires Ring(s) && head == s[0] && k < |s| && entry == s[k]
    requires Ring([list]) && list !in s
    modifies s, list
    ensures Ring(s)
  {
    HeadTests(head, s);
    var hasEntries := !ListEmpty(head);
    ListCutPosition(list, head, entry, s, k);
    if hasEntries {
      SpliceBack(list, head, s, k);
    } else {
      assert [head] + [list][1..] + s[1..] == s;
      ListSplice(list, head, [list], s);
    }
  }

  method SpliceBack(list: Node, head: Node, ghost s: seq<Node>, ghost k: nat)
    requires k < |s| && head == s[0] && Distinct(s) && list !in s
    requires Ring([list] + s[1..k + 1]) && Ring([head] + s[k + 1..])
    modifies s, list
    ensures Ring(s)
  {
    PiecesApart(list, head, s, k);
    CutRejoins(list, head, s, k);
    ListSplice(list, head, [list] + s[1..k + 1], [head] + s[k + 1..]);
  }

  lemma CutRejoins(list: Node, head: Node, s: seq<Node>, k: nat)
    requires k < |s| && head == s[0]
    ensures [head] + ([list] + s[1..k + 1])[1..] + ([head] + s[k + 1..])[1..] == s
    ensures forall n | n in [list] + s[1..k + 1] || n in [head] + s[k + 1..] :: n == list || n in s
  {
  }

  lemma PiecesApart(list: Node, head: Node, s: seq<Node>, k: nat)
    requires Distinct(s) && k < |s| && head == s[0] && list !in s
    ensures Apart([head] + s[k + 1..], [list] + s[1..k + 1])
  {
    var rest, piece := [head] + s[k + 1..], [list] + s[1..k + 1];
    forall i, j | 0 <= i < |rest| && 0 <= j < |piece|
      ensures rest[i] != piece[j]
    {
      assert j > 0 ==> piece[j] == s[j];
      assert i > 0 ==> rest[i] == s[k + i];
    }
  }

  ghost function After(s: seq<Node>, i: nat): Node
    requires i < |s|
  {
    if i + 1 < |s| then s[i + 1] else s[0]
  }

  ghost function Preceding(s: seq<Node>, i: nat): Node
    requires i < |s|
  {
    if i > 0 then s[i - 1] else s[|s| - 1]
  }

  /** A ring's sequence determines all of its pointers. */
  lemma RingLinks(s: seq<Node>)
    requires Ring(s)
    ensures forall i: nat | i < |s| :: s[i].next == After(s, i) && s[i].prev == Preceding(s, i)
  {
  }
}
