// java.util.LinkedList: a doubly linked list of `Node`s with `first`, `last`,
// `size` and the structural-modification counter `modCount`.  The ghost
// sequence `nodes` lists the nodes from `first` to `last`; `contents` lists
// their items.  Java's `equals` (and `==` for null) is Dafny equality on `T`.
module LinkedLists {
  import opened Outcomes

  /** The first index of `o` in `s`, or -1 when `s` does not hold it. */
  function IndexIn<T(==)>(s: seq<T>, o: T): (r: int)
    ensures -1 <= r < |s|
    ensures r == -1 <==> o !in s
    ensures 0 <= r ==> s[r] == o && o !in s[..r]
  {
    if s == [] then -1
    else if s[0] == o then 0
    else
      var k := IndexIn(s[1..], o);
      if k == -1 then -1
      else
        assert s[..k + 1] == [s[0]] + s[1..][..k];
        k + 1
  }

  /** The last index of `o` in `s`, or -1 when `s` does not hold it. */
  function LastIndexIn<T(==)>(s: seq<T>, o: T): (r: int)
    ensures -1 <= r < |s|
    ensures r == -1 <==> o !in s
    ensures 0 <= r ==> s[r] == o && o !in s[r + 1..]
  {
    if s == [] then -1
    else if s[|s| - 1] == o then |s| - 1
    else
      var init := s[..|s| - 1];
      var r := LastIndexIn(init, o);
      if r == -1 then
        assert s == init + [s[|s| - 1]];
        -1
      else
        assert s[r + 1..] == init[r + 1..] + [s[|s| - 1]];
        r
  }

  /** `s` without the element at `k`. */
  function Without<T>(s: seq<T>, k: int): seq<T>
    requires 0 <= k < |s|
  {
    s[..k] + s[k + 1..]
  }

  /** `s` with `c` inserted at `k`. */
  function Inserted<T>(s: seq<T>, k: int, c: seq<T>): seq<T>
    requires 0 <= k <= |s|
  {
    s[..k] + c + s[k..]
  }

  /** Removing the first occurrence of `o` takes exactly one `o` out of the list's multiset. */
  lemma RemoveFirstOccurrence<T>(s: seq<T>, o: T)
    requires o in s
    ensures multiset(Without(s, IndexIn(s, o))) == multiset(s) - multiset{o}
  {
    var k := IndexIn(s, o);
    WithoutMultiset(s, k);
  }

  /** Dropping the `k`th element takes exactly that element out of the multiset. */
  lemma WithoutMultiset<T>(s: seq<T>, k: int)
    requires 0 <= k < |s|
    ensures multiset(Without(s, k)) == multiset(s) - multiset{s[k]}
  {
    var a, b := s[..k], s[k + 1..];
    assert s == a + [s[k]] + b;
    assert multiset(s) == multiset(a) + multiset{s[k]} + multiset(b);
    assert Without(s, k) == a + b;
  }

  /** `index` names an element: `get`, `set` and `remove(int)` accept it. */
  predicate IsElementIndex(index: int, size: int)
  {
    0 <= index < size
  }

  /** `index` names a position: `add(int, E)`, `addAll(int, …)` and `listIterator` accept it. */
  predicate IsPositionIndex(index: int, size: int)
  {
    0 <= index <= size
  }

  class Node<T> {
    var item: T
    var next: Node?<T>
    var prev: Node?<T>

    constructor (prev: Node?<T>, element: T, next: Node?<T>)
      ensures this.item == element && this.next == next && this.prev == prev
    {
      this.item := element;
      this.next := next;
      this.prev := prev;
    }
  }

  /** Every inner link of `ns` goes both ways. */
  ghost predicate Linked<T>(ns: seq<Node<T>>)
    reads ns
  {
    && (forall i :: 0 < i < |ns| ==> ns[i].prev == ns[i - 1])
    && (forall i :: 0 <= i < |ns| - 1 ==> ns[i].next == ns[i + 1])
  }

  ghost predicate Distinct<T>(ns: seq<T>)
  {
    forall i, j :: 0 <= i < j < |ns| ==> ns[i] != ns[j]
  }

  /**
   * `ns` is a chain from `first` to `last` holding the items `cs`:
   * `first` and `last` are both null or both its ends, `first.prev` and
   * `last.next` are null, and every node occurs once.
   */
  ghost predicate Chain<T>(ns: seq<Node<T>>, cs: seq<T>, first: Node?<T>, last: Node?<T>)
    reads ns
  {
    && |ns| == |cs|
    && (ns == [] ==> first == null && last == null)
    && (ns != [] ==> first == ns[0] && last == ns[|ns| - 1])
    && (ns != [] ==> ns[0].prev == null && ns[|ns| - 1].next == null)
    && (forall i :: 0 <= i < |ns| ==> ns[i].item == cs[i])
    && Linked(ns)
    && Distinct(ns)
  }

  /** The links of `ns` with `n` linked in front of `ns[k]`. */
  lemma InsertLinks<T>(ns: seq<Node<T>>, k: int, n: Node<T>)
    requires 0 <= k < |ns|
    requires forall i :: 0 < i < |ns| && i != k ==> ns[i].prev == ns[i - 1]
    requires forall i :: 0 <= i < |ns| - 1 && i != k - 1 ==> ns[i].next == ns[i + 1]
    requires n.next == ns[k] && ns[k].prev == n
    requires k > 0 ==> n.prev == ns[k - 1] && ns[k - 1].next == n
    ensures Linked(ns[..k] + [n] + ns[k..])
  {
    var ms := ns[..k] + [n] + ns[k..];
    forall i | 0 < i < |ms|
      ensures ms[i].prev == ms[i - 1]
    {
      if i < k {
        assert ms[i] == ns[i] && ms[i - 1] == ns[i - 1];
      } else if i > k + 1 {
        assert ms[i] == ns[i - 1] && ms[i - 1] == ns[i - 2];
      }
    }
    forall i | 0 <= i < |ms| - 1
      ensures ms[i].next == ms[i + 1]
    {
      if i < k - 1 {
        assert ms[i] == ns[i] && ms[i + 1] == ns[i + 1];
      } else if i > k {
        assert ms[i] == ns[i - 1] && ms[i + 1] == ns[i];
      }
    }
  }

  /** The links of `ns` with `ns[k]` bypassed from both sides. */
  lemma RemoveLinks<T>(ns: seq<Node<T>>, k: int)
    requires 0 <= k < |ns|
    requires forall i :: 0 < i < |ns| && i != k && i != k + 1 ==> ns[i].prev == ns[i - 1]
    requires forall i :: 0 <= i < |ns| - 1 && i != k - 1 && i != k ==> ns[i].next == ns[i + 1]
    requires k > 0 && k + 1 < |ns| ==> ns[k - 1].next == ns[k + 1] && ns[k + 1].prev == ns[k - 1]
    ensures Linked(Without(ns, k))
  {
    var ms := Without(ns, k);
    forall i | 0 < i < |ms|
      ensures ms[i].prev == ms[i - 1]
    {
      if i < k {
        assert ms[i] == ns[i] && ms[i - 1] == ns[i - 1];
      } else if i > k {
        assert ms[i] == ns[i + 1] && ms[i - 1] == ns[i];
      } else {
        assert ms[i] == ns[k + 1] && ms[i - 1] == ns[k - 1];
      }
    }
    forall i | 0 <= i < |ms| - 1
      ensures ms[i].next == ms[i + 1]
    {
      if i < k - 1 {
        assert ms[i] == ns[i] && ms[i + 1] == ns[i + 1];
      } else if i >= k {
        assert ms[i] == ns[i + 1] && ms[i + 1] == ns[i + 2];
      } else {
        assert ms[i] == ns[k - 1] && ms[i + 1] == ns[k + 1];
      }
    }
  }

  /** Dropping the node at `k` keeps the others distinct. */
  lemma DistinctWithout<T>(ns: seq<T>, k: int)
    requires Distinct(ns) && 0 <= k < |ns|
    ensures Distinct(Without(ns, k))
  {
    var ms := Without(ns, k);
    forall i, j | 0 <= i < j < |ms|
      ensures ms[i] != ms[j]
    {
      var i' := if i < k then i else i + 1;
      var j' := if j < k then j else j + 1;
      assert ms[i] == ns[i'] && ms[j] == ns[j'];
    }
  }

  /** Linking a node `n` from outside `ns` in front of `ns[k]` gives a chain with `n` at `k`. */
  lemma ChainInsert<T>(ns: seq<Node<T>>, cs: seq<T>, k: int, n: Node<T>, first: Node?<T>, last: Node?<T>)
    requires 0 <= k < |ns| == |cs| && Distinct(ns) && n !in ns
    requires forall i :: 0 <= i < |ns| ==> ns[i].item == cs[i]
    requires forall i :: 0 < i < |ns| && i != k ==> ns[i].prev == ns[i - 1]
    requires forall i :: 0 <= i < |ns| - 1 && i != k - 1 ==> ns[i].next == ns[i + 1]
    requires n.next == ns[k] && ns[k].prev == n && last == ns[|ns| - 1] && ns[|ns| - 1].next == null
    requires k == 0 ==> n.prev == null && first == n
    requires k > 0 ==> n.prev == ns[k - 1] && ns[k - 1].next == n && first == ns[0] && ns[0].prev == null
    ensures Chain(ns[..k] + [n] + ns[k..], cs[..k] + [n.item] + cs[k..], first, last)
  {
    var ms := ns[..k] + [n] + ns[k..];
    var ds := cs[..k] + [n.item] + cs[k..];
    assert Distinct([n]);
    DistinctSplice(ns, k, [n]);
    InsertLinks(ns, k, n);
    assert forall i :: 0 <= i < |ms| ==> ms[i].item == ds[i] by {
      assert forall i :: 0 <= i < k ==> ms[i] == ns[i] && ds[i] == cs[i];
      assert forall i :: k < i < |ms| ==> ms[i] == ns[i - 1] && ds[i] == cs[i - 1];
    }
    assert ms[0] == (if k == 0 then n else ns[0]) && ms[|ms| - 1] == ns[|ns| - 1];
  }

  /** Bypassing `ns[k]` from both sides gives the chain without it. */
  lemma ChainRemove<T>(ns: seq<Node<T>>, cs: seq<T>, k: int, first: Node?<T>, last: Node?<T>)
    requires 0 <= k < |ns| == |cs| && Distinct(ns)
    requires forall i :: 0 <= i < |ns| && i != k ==> ns[i].item == cs[i]
    requires forall i :: 0 < i < |ns| && i != k && i != k + 1 ==> ns[i].prev == ns[i - 1]
    requires forall i :: 0 <= i < |ns| - 1 && i != k - 1 && i != k ==> ns[i].next == ns[i + 1]
    requires k > 0 ==> first == ns[0] && ns[0].prev == null
    requires k + 1 < |ns| ==> last == ns[|ns| - 1] && ns[|ns| - 1].next == null
    requires k == 0 ==> first == (if k + 1 < |ns| then ns[k + 1] else null)
    requires k + 1 == |ns| ==> last == (if k > 0 then ns[k - 1] else null)
    requires k > 0 ==> ns[k - 1].next == (if k + 1 < |ns| then ns[k + 1] else null)
    requires k + 1 < |ns| ==> ns[k + 1].prev == (if k > 0 then ns[k - 1] else null)
    ensures Chain(Without(ns, k), Without(cs, k), first, last)
  {
    var ms := Without(ns, k);
    var ds := Without(cs, k);
    DistinctWithout(ns, k);
    RemoveLinks(ns, k);
    assert forall i :: 0 <= i < |ms| ==> ms[i].item == ds[i] by {
      assert forall i :: 0 <= i < k ==> ms[i] == ns[i] && ds[i] == cs[i];
      assert forall i :: k <= i < |ms| ==> ms[i] == ns[i + 1] && ds[i] == cs[i + 1];
    }
    assert ms != [] ==> ms[0] == (if k == 0 then ns[1] else ns[0]);
    assert ms != [] ==> ms[|ms| - 1] == (if k == |ns| - 1 then ns[k - 1] else ns[|ns| - 1]);
  }

  /** `ns` is a run of distinct nodes, linked both ways inside, holding the items `cs`. */
  ghost predicate Run<T>(ns: seq<Node<T>>, cs: seq<T>)
    reads ns
  {
    && |ns| == |cs|
    && (forall i :: 0 <= i < |ns| ==> ns[i].item == cs[i])
    && Linked(ns)
    && Distinct(ns)
  }

  /** A chain cut at `k` is two runs. */
  lemma RunParts<T>(ns: seq<Node<T>>, cs: seq<T>, k: int)
    requires Run(ns, cs) && 0 <= k <= |ns|
    ensures Run(ns[..k], cs[..k]) && Run(ns[k..], cs[k..])
  {
    var a, b := ns[..k], ns[k..];
    assert forall i :: 0 <= i < |b| ==> b[i] == ns[k + i];
    forall i | 0 < i < |b|
      ensures b[i].prev == b[i - 1]
    {
      assert b[i] == ns[k + i] && b[i - 1] == ns[k + i - 1];
    }
    forall i, j | 0 <= i < j < |b|
      ensures b[i] != b[j]
    {
      assert b[i] == ns[k + i] && b[j] == ns[k + j];
    }
  }

  /** Linking a node `n` from outside the run `pa` after its last node extends it. */
  lemma RunSnoc<T>(pa: seq<Node<T>>, da: seq<T>, n: Node<T>)
    requires |pa| == |da| && Distinct(pa) && n !in pa
    requires forall i :: 0 <= i < |pa| ==> pa[i].item == da[i]
    requires forall i :: 0 < i < |pa| ==> pa[i].prev == pa[i - 1]
    requires forall i :: 0 <= i < |pa| - 1 ==> pa[i].next == pa[i + 1]
    requires pa != [] ==> pa[|pa| - 1].next == n && n.prev == pa[|pa| - 1]
    ensures Run(pa + [n], da + [n.item])
  {
    var qa := pa + [n];
    assert forall i :: 0 <= i < |pa| ==> qa[i] == pa[i];
    forall i, j | 0 <= i < j < |qa|
      ensures qa[i] != qa[j]
    {
      if j < |pa| {
        assert qa[i] == pa[i] && qa[j] == pa[j];
      }
    }
  }

  /** Joining a run `pa` starting at `first` to a run `sx` ending at `last` gives a chain. */
  lemma RunJoin<T>(pa: seq<Node<T>>, da: seq<T>, sx: seq<Node<T>>, dx: seq<T>, first: Node?<T>, last: Node?<T>)
    requires Run(pa, da) && Run(sx, dx) && Distinct(pa + sx) && pa != []
    requires first == pa[0] && pa[0].prev == null
    requires sx == [] ==> last == pa[|pa| - 1] && pa[|pa| - 1].next == null
    requires sx != [] ==> pa[|pa| - 1].next == sx[0] && sx[0].prev == pa[|pa| - 1]
    requires sx != [] ==> last == sx[|sx| - 1] && sx[|sx| - 1].next == null
    ensures Chain(pa + sx, da + dx, first, last)
  {
    var ms, ds := pa + sx, da + dx;
    assert forall i :: 0 <= i < |pa| ==> ms[i] == pa[i] && ds[i] == da[i];
    assert forall i :: |pa| <= i < |ms| ==> ms[i] == sx[i - |pa|] && ds[i] == dx[i - |pa|];
    forall i | 0 < i < |ms|
      ensures ms[i].prev == ms[i - 1]
    {
      if i > |pa| {
        assert ms[i] == sx[i - |pa|] && ms[i - 1] == sx[i - 1 - |pa|];
      }
    }
    forall i | 0 <= i < |ms| - 1
      ensures ms[i].next == ms[i + 1]
    {
      if i >= |pa| {
        assert ms[i] == sx[i - |pa|] && ms[i + 1] == sx[i + 1 - |pa|];
      }
    }
  }

  /** Nodes from outside `ns`, spliced in at `k`, keep every node distinct. */
  lemma DistinctSplice<T>(ns: seq<T>, k: int, added: seq<T>)
    requires Distinct(ns) && Distinct(added) && 0 <= k <= |ns|
    requires forall i, j :: 0 <= i < |ns| && 0 <= j < |added| ==> ns[i] != added[j]
    ensures Distinct(ns[..k] + added + ns[k..])
  {
    var ms := ns[..k] + added + ns[k..];
    forall i, j | 0 <= i < j < |ms|
      ensures ms[i] != ms[j]
    {
      var i' := if i < k then i else i - |added|;
      var j' := if j < k then j else j - |added|;
      if i < k {
        assert ms[i] == ns[i];
      } else if i < k + |added| {
        assert ms[i] == added[i - k];
      } else {
        assert ms[i] == ns[i'];
      }
      if j < k {
        assert ms[j] == ns[j];
      } else if j < k + |added| {
        assert ms[j] == added[j - k];
      } else {
        assert ms[j] == ns[j'];
      }
    }
  }

  /** A sequence that agrees with `s` around a block equal to `c` at `k` is `Inserted(s, k, c)`. */
  lemma InsertedByIndex<T>(s: seq<T>, k: int, c: seq<T>, t: seq<T>)
    requires 0 <= k <= |s| && |t| == |s| + |c|
    requires forall i :: 0 <= i < k ==> t[i] == s[i]
    requires forall i :: k <= i < |s| ==> t[i + |c|] == s[i]
    requires forall i :: 0 <= i < |c| ==> t[k + i] == c[i]
    ensures t == Inserted(s, k, c)
  {
    var u := Inserted(s, k, c);
    forall i | 0 <= i < |t|
      ensures t[i] == u[i]
    {
      if i < k {
      } else if i < k + |c| {
        assert t[k + (i - k)] == c[i - k];
      } else {
        assert t[(i - |c|) + |c|] == s[i - |c|];
      }
    }
  }

  /** A run that keeps `ns[..k]` and adds only nodes from outside `ns`, followed by `ns[k..]`, has no repeats. */
  lemma SpliceShape<T>(ns: seq<T>, k: int, pa: seq<T>)
    requires Distinct(ns) && Distinct(pa) && 0 <= k <= |ns| && k <= |pa| && pa[..k] == ns[..k]
    requires forall j :: k <= j < |pa| ==> pa[j] !in ns
    ensures Distinct(pa + ns[k..]) && (pa + ns[k..])[..k] == ns[..k] && (pa + ns[k..])[|pa|..] == ns[k..]
  {
    var added := pa[k..];
    assert pa == ns[..k] + added;
    assert forall i, j :: 0 <= i < |ns| && 0 <= j < |added| ==> ns[i] != added[j] by {
      forall i, j | 0 <= i < |ns| && 0 <= j < |added|
        ensures ns[i] != added[j]
      {
        assert added[j] == pa[k + j];
      }
    }
    assert Distinct(added) by {
      forall i, j | 0 <= i < j < |added|
        ensures added[i] != added[j]
      {
        assert added[i] == pa[k + i] && added[j] == pa[k + j];
      }
    }
    DistinctSplice(ns, k, added);
    assert pa + ns[k..] == ns[..k] + added + ns[k..];
  }

  class LinkedList<T(==)> {
    var size: int
    var first: Node?<T>
    var last: Node?<T>
    var modCount: int
    /** The nodes from `first` to `last`. */
    ghost var nodes: seq<Node<T>>
    /** The items of `nodes`, in order. */
    ghost var contents: seq<T>

    /**
     * `first` and `last` are both null or both the ends of the chain,
     * `first.prev` and `last.next` are null, every inner link goes both
     * ways, and `size` counts the nodes.
     */
    ghost predicate Valid()
      reads this, nodes
    {
      size == |nodes| && Chain(nodes, contents, first, last)
    }

    constructor ()
      ensures Valid() && contents == [] && nodes == [] && modCount == 0
    {
      size := 0;
      first := null;
      last := null;
      modCount := 0;
      nodes := [];
      contents := [];
    }

    /** `linkFirst(e)`: a new first node; the old ones keep their order. */
    method LinkFirst(e: T)
      requires Valid()
      modifies this, first
      ensures Valid() && |nodes| == |old(nodes)| + 1
      ensures nodes == [nodes[0]] + old(nodes) && fresh(nodes[0]) && contents == [e] + old(contents)
      ensures modCount == old(modCount) + 1
    {
      var f := first;
      var newNode := new Node(null, e, f);
      first := newNode;
      if f == null {
        last := newNode;
      } else {
        f.prev := newNode;
      }
      size := size + 1;
      modCount := modCount + 1;
      nodes := [newNode] + nodes;
      contents := [e] + contents;
    }

    /** `linkLast(e)`: a new last node; the old ones keep their order. */
    method LinkLast(e: T)
      requires Valid()
      modifies this, last
      ensures Valid() && |nodes| == |old(nodes)| + 1
      ensures nodes == old(nodes) + [nodes[|nodes| - 1]] && fresh(nodes[|nodes| - 1]) && contents == old(contents) + [e]
      ensures modCount == old(modCount) + 1
    {
      var l := last;
      var newNode := new Node(l, e, null);
      last := newNode;
      if l == null {
        first := newNode;
      } else {
        l.next := newNode;
      }
      size := size + 1;
      modCount := modCount + 1;
      nodes := nodes + [newNode];
      contents := contents + [e];
    }

    /** `linkBefore(e, succ)`: a new node just before `succ`, the `k`-th node. */
    method LinkBefore(e: T, succ: Node<T>, ghost k: int)
      requires Valid() && 0 <= k < |nodes| && nodes[k] == succ
      modifies this, succ, succ.prev
      ensures Valid() && |nodes| == |old(nodes)| + 1
      ensures nodes == old(nodes[..k]) + [nodes[k]] + old(nodes[k..]) && fresh(nodes[k])
      ensures contents == Inserted(old(contents), k, [e])
      ensures modCount == old(modCount) + 1
    {
      ghost var ns, cs := nodes, contents;
      var pred := succ.prev;
      assert k == 0 ==> pred == null;
      assert k > 0 ==> pred == nodes[k - 1];
      var newNode := new Node(pred, e, succ);
      succ.prev := newNode;
      if pred == null {
        first := newNode;
      } else {
        pred.next := newNode;
      }
      size := size + 1;
      modCount := modCount + 1;
      nodes := ns[..k] + [newNode] + ns[k..];
      contents := cs[..k] + [e] + cs[k..];
      ChainInsert(ns, cs, k, newNode, first, last);
    }

    /** `unlinkFirst(f)`: drops the first node and returns its item. */
    method UnlinkFirst(f: Node<T>) returns (element: T)
      requires Valid() && f == first
      modifies this, f, f.next
      ensures Valid() && element == old(contents[0])
      ensures nodes == old(nodes[1..]) && contents == old(contents[1..])
      ensures modCount == old(modCount) + 1
    {
      element := f.item;
      var next := f.next;
      f.next := null;
      first := next;
      if next == null {
        last := null;
      } else {
        next.prev := null;
      }
      size := size - 1;
      modCount := modCount + 1;
      nodes := nodes[1..];
      contents := contents[1..];
    }

    /** `unlinkLast(l)`: drops the last node and returns its item. */
    method UnlinkLast(l: Node<T>) returns (element: T)
      requires Valid() && l == last
      modifies this, l, l.prev
      ensures Valid() && element == old(contents[|contents| - 1])
      ensures nodes == old(nodes[..|nodes| - 1]) && contents == old(contents[..|contents| - 1])
      ensures modCount == old(modCount) + 1
    {
      element := l.item;
      var prev := l.prev;
      assert nodes != [];
      assert l == nodes[|nodes| - 1];
      assert |nodes| == 1 ==> prev == null;
      assert |nodes| > 1 ==> prev == nodes[|nodes| - 2];
      l.prev := null;
      last := prev;
      if prev == null {
        first := null;
      } else {
        prev.next := null;
      }
      size := size - 1;
      modCount := modCount + 1;
      nodes := nodes[..|nodes| - 1];
      contents := contents[..|contents| - 1];
    }

    /** `unlink(x)`: drops `x`, the `k`-th node, and returns its item. */
    method Unlink(x: Node<T>, ghost k: int) returns (element: T)
      requires Valid() && 0 <= k < |nodes| && nodes[k] == x
      modifies this, x, x.prev, x.next
      ensures Valid() && element == old(contents[k])
      ensures nodes == Without(old(nodes), k) && contents == Without(old(contents), k)
      ensures modCount == old(modCount) + 1
    {
      ghost var ns, cs := nodes, contents;
      element := x.item;
      var next := x.next;
      var prev := x.prev;
      assert k == 0 ==> prev == null;
      assert k > 0 ==> prev == nodes[k - 1];
      assert k == |nodes| - 1 ==> next == null;
      assert k < |nodes| - 1 ==> next == nodes[k + 1];
      if prev == null {
        first := next;
      } else {
        prev.next := next;
        x.prev := null;
      }
      if next == null {
        last := prev;
      } else {
        next.prev := prev;
        x.next := null;
      }
      size := size - 1;
      modCount := modCount + 1;
      nodes := Without(ns, k);
      contents := Without(cs, k);
      ChainRemove(ns, cs, k, first, last);
    }

    /** `node(index)`: walks from whichever end is nearer; either walk finds the `index`-th node. */
    method NodeAt(index: int) returns (x: Node<T>)
      requires Valid() && IsElementIndex(index, size)
      ensures x == nodes[index]
    {
      // `size >> 1` is `size / 2` for the non-negative `size`.
      if index < size / 2 {
        x := first;
        var i := 0;
        while i < index
          invariant 0 <= i <= index && x == nodes[i]
        {
          assert x.next == nodes[i + 1];
          x := x.next;
          i := i + 1;
        }
      } else {
        x := last;
        var i := size - 1;
        while i > index
          invariant index <= i < size && x == nodes[i]
        {
          assert x.prev == nodes[i - 1];
          x := x.prev;
          i := i - 1;
        }
      }
    }

    /** `getFirst()`: the first item, or `NoSuchElementException` on an empty list. */
    method GetFirst() returns (r: Result<T>)
      requires Valid()
      ensures contents == [] ==> r == Err(NoSuchElement)
      ensures contents != [] ==> r == Ok(contents[0])
    {
      var f := first;
      if f == null {
        return Err(NoSuchElement);
      }
      return Ok(f.item);
    }

    /** `getLast()`: the last item, or `NoSuchElementException` on an empty list. */
    method GetLast() returns (r: Result<T>)
      requires Valid()
      ensures contents == [] ==> r == Err(NoSuchElement)
      ensures contents != [] ==> r == Ok(contents[|contents| - 1])
    {
      var l := last;
      if l == null {
        return Err(NoSuchElement);
      }
      return Ok(l.item);
    }

    /** `removeFirst()`: unlinks and returns the first item; an empty list throws and stays as it is. */
    method RemoveFirst() returns (r: Result<T>)
      requires Valid()
      modifies this, nodes
      ensures Valid()
      ensures old(contents) == [] ==> r == Err(NoSuchElement) && nodes == old(nodes) && contents == old(contents) && modCount == old(modCount)
      ensures old(contents) != [] ==> r == Ok(old(contents[0])) && nodes == old(nodes[1..]) && contents == old(contents[1..]) && modCount == old(modCount) + 1
    {
      var f := first;
      if f == null {
        return Err(NoSuchElement);
      }
      assert |nodes| > 1 ==> f.next == nodes[1];
      var e := UnlinkFirst(f);
      return Ok(e);
    }

    /** `removeLast()`: unlinks and returns the last item; an empty list throws and stays as it is. */
    method RemoveLast() returns (r: Result<T>)
      requires Valid()
      modifies this, nodes
      ensures Valid()
      ensures old(contents) == [] ==> r == Err(NoSuchElement) && nodes == old(nodes) && contents == old(contents) && modCount == old(modCount)
      ensures old(contents) != [] ==> r == Ok(old(contents[|contents| - 1])) && nodes == old(nodes[..|nodes| - 1]) && contents == old(contents[..|contents| - 1]) && modCount == old(modCount) + 1
    {
      var l := last;
      if l == null {
        return Err(NoSuchElement);
      }
      assert |nodes| > 1 ==> l.prev == nodes[|nodes| - 2];
      var e := UnlinkLast(l);
      return Ok(e);
    }

    /** `add(e)`: appends `e` and reports a change. */
    method Add(e: T) returns (changed: bool)
      requires Valid()
      modifies this, last
      ensures Valid() && changed && contents == old(contents) + [e] && modCount == old(modCount) + 1
      ensures nodes == old(nodes) + [nodes[|nodes| - 1]] && fresh(nodes[|nodes| - 1])
    {
      LinkLast(e);
      return true;
    }

    /** `indexOf(o)`: walks from `first` counting nodes until one holds `o`. */
    method IndexOf(o: T) returns (index: int)
      requires Valid()
      ensures index == IndexIn(contents, o)
    {
      index := 0;
      var x := first;
      while x != null
        invariant 0 <= index <= |nodes|
        invariant x == (if index < |nodes| then nodes[index] else null)
        invariant o !in contents[..index]
        decreases |nodes| - index
      {
        if x.item == o {
          return index;
        }
        assert contents[..index + 1] == contents[..index] + [contents[index]];
        index := index + 1;
        x := x.next;
      }
      assert contents[..index] == contents;
      return -1;
    }

    /** `lastIndexOf(o)`: walks back from `last` counting down until a node holds `o`. */
    method LastIndexOf(o: T) returns (index: int)
      requires Valid()
      ensures index == LastIndexIn(contents, o)
    {
      index := size;
      var x := last;
      while x != null
        invariant 0 <= index <= |nodes|
        invariant x == (if index > 0 then nodes[index - 1] else null)
        invariant o !in contents[index..]
        decreases index
      {
        index := index - 1;
        if x.item == o {
          return index;
        }
        assert contents[index..] == [contents[index]] + contents[index + 1..];
        x := x.prev;
      }
      assert contents[index..] == contents;
      return -1;
    }

    /** `contains(o)`: whether `indexOf(o)` finds it. */
    method Contains(o: T) returns (found: bool)
      requires Valid()
      ensures found <==> o in contents
    {
      var index := IndexOf(o);
      return index != -1;
    }

    /** `remove(o)`: unlinks the first node holding `o`; when there is none the list is unchanged. */
    method Remove(o: T) returns (removed: bool)
      requires Valid()
      modifies this, nodes
      ensures Valid()
      ensures removed <==> o in old(contents)
      ensures removed ==> nodes == Without(old(nodes), IndexIn(old(contents), o)) && contents == Without(old(contents), IndexIn(old(contents), o)) && modCount == old(modCount) + 1
      ensures !removed ==> nodes == old(nodes) && contents == old(contents) && modCount == old(modCount)
    {
      var index := 0;
      var x := first;
      while x != null
        invariant 0 <= index <= |nodes|
        invariant x == (if index < |nodes| then nodes[index] else null)
        invariant o !in contents[..index]
        decreases |nodes| - index
      {
        if x.item == o {
          assert IndexIn(contents, o) == index;
          assert index > 0 ==> x.prev == nodes[index - 1];
          assert index < |nodes| - 1 ==> x.next == nodes[index + 1];
          var _ := Unlink(x, index);
          return true;
        }
        assert contents[..index + 1] == contents[..index] + [contents[index]];
        index := index + 1;
        x := x.next;
      }
      assert contents[..index] == contents;
      return false;
    }

    /** `get(index)`: the item at an element index; any other index throws. */
    method Get(index: int) returns (r: Result<T>)
      requires Valid()
      ensures !IsElementIndex(index, |contents|) ==> r == Err(IndexOutOfBounds)
      ensures IsElementIndex(index, |contents|) ==> r == Ok(contents[index])
    {
      if !IsElementIndex(index, size) {
        return Err(IndexOutOfBounds);
      }
      var x := NodeAt(index);
      return Ok(x.item);
    }

    /** `set(index, element)`: replaces the item at an element index and returns the old one; not a structural change. */
    method Set(index: int, element: T) returns (r: Result<T>)
      requires Valid()
      modifies this, nodes
      ensures Valid() && nodes == old(nodes) && modCount == old(modCount)
      ensures !IsElementIndex(index, |old(contents)|) ==> r == Err(IndexOutOfBounds) && contents == old(contents)
      ensures IsElementIndex(index, |old(contents)|) ==> r == Ok(old(contents[index])) && contents == old(contents)[index := element]
    {
      if !IsElementIndex(index, size) {
        return Err(IndexOutOfBounds);
      }
      var x := NodeAt(index);
      var oldVal := x.item;
      x.item := element;
      contents := contents[index := element];
      return Ok(oldVal);
    }

    /** `add(index, element)`: inserts at a position index (appending when it is `size`); any other index throws. */
    method AddAt(index: int, element: T) returns (s: Status)
      requires Valid()
      modifies this, nodes
      ensures Valid()
      ensures !IsPositionIndex(index, |old(contents)|) ==> s == Thrown(IndexOutOfBounds) && nodes == old(nodes) && contents == old(contents) && modCount == old(modCount)
      ensures IsPositionIndex(index, |old(contents)|) ==> s == Done && contents == Inserted(old(contents), index, [element]) && modCount == old(modCount) + 1
    {
      if !IsPositionIndex(index, size) {
        return Thrown(IndexOutOfBounds);
      }
      if index == size {
        LinkLast(element);
        assert contents == old(contents) + [element];
      } else {
        var succ := NodeAt(index);
        assert index > 0 ==> succ.prev == nodes[index - 1];
        LinkBefore(element, succ, index);
      }
      return Done;
    }

    /** `remove(index)`: unlinks the node at an element index and returns its item; any other index throws. */
    method RemoveAt(index: int) returns (r: Result<T>)
      requires Valid()
      modifies this, nodes
      ensures Valid()
      ensures !IsElementIndex(index, |old(contents)|) ==> r == Err(IndexOutOfBounds) && nodes == old(nodes) && contents == old(contents) && modCount == old(modCount)
      ensures IsElementIndex(index, |old(contents)|) ==> r == Ok(old(contents[index])) && nodes == Without(old(nodes), index) && contents == Without(old(contents), index) && modCount == old(modCount) + 1
    {
      if !IsElementIndex(index, size) {
        return Err(IndexOutOfBounds);
      }
      var x := NodeAt(index);
      assert index > 0 ==> x.prev == nodes[index - 1];
      assert index < |nodes| - 1 ==> x.next == nodes[index + 1];
      var e := Unlink(x, index);
      return Ok(e);
    }

    /** `clear()`: detaches every node from its neighbours, then empties the list. */
    method Clear()
      requires Valid()
      modifies this, nodes
      ensures Valid() && nodes == [] && contents == [] && modCount == old(modCount) + 1
      ensures forall n :: n in old(nodes) ==> n.next == null && n.prev == null
    {
      ghost var ns := nodes;
      var x := first;
      ghost var i := 0;
      while x != null
        invariant 0 <= i <= |ns|
        invariant x == (if i < |ns| then ns[i] else null)
        invariant forall j :: i <= j < |ns| - 1 ==> ns[j].next == ns[j + 1]
        invariant ns != [] ==> ns[|ns| - 1].next == null
        invariant forall j :: 0 <= j < i ==> ns[j].next == null && ns[j].prev == null
        invariant modCount == old(modCount)
        decreases |ns| - i
      {
        var next := x.next;
        x.next := null;
        x.prev := null;
        x := next;
        i := i + 1;
      }
      first, last := null, null;
      size := 0;
      modCount := modCount + 1;
      nodes := [];
      contents := [];
    }

    /**
     * One step of `addAll`'s loop: a node for `e` after `pred`, the last
     * node of the run `pa`, or the new `first` when `pa` is empty.
     */
    method LinkAfter(pred: Node?<T>, e: T, ghost pa: seq<Node<T>>, ghost da: seq<T>) returns (newNode: Node<T>)
      requires Run(pa, da) && (pa != [] ==> pa[0].prev == null)
      requires pred == (if pa == [] then null else pa[|pa| - 1])
      modifies this`first, pred
      ensures fresh(newNode) && newNode.prev == pred && newNode.next == null
      ensures Run(pa + [newNode], da + [e]) && (pa + [newNode])[0].prev == null
      ensures first == (if pa == [] then newNode else old(first))
    {
      newNode := new Node(pred, e, null);
      if pred == null {
        first := newNode;
      } else {
        pred.next := newNode;
      }
      RunSnoc(pa, da, newNode);
    }

    /**
     * The loop of `addAll`: links a node for each item of `c`, in order,
     * after `pred0`, the last node of the run `pa0` (null when it is empty).
     */
    method LinkRun(c: seq<T>, pred0: Node?<T>, ghost pa0: seq<Node<T>>, ghost da0: seq<T>)
      returns (pred: Node?<T>, ghost pa: seq<Node<T>>, ghost da: seq<T>)
      requires Run(pa0, da0) && (pa0 != [] ==> pa0[0].prev == null && first == pa0[0])
      requires pred0 == (if pa0 == [] then null else pa0[|pa0| - 1])
      modifies this`first, pred0
      ensures |pa| == |pa0| + |c| && pa[..|pa0|] == pa0 && da == da0 + c
      ensures forall k :: |pa0| <= k < |pa| ==> fresh(pa[k])
      ensures Run(pa, da) && (pa != [] ==> pa[0].prev == null)
      ensures pred == (if pa == [] then null else pa[|pa| - 1])
      ensures c != [] ==> pred.next == null
      ensures first == (if pa == [] then old(first) else pa[0])
    {
      pred := pred0;
      pa, da := pa0, da0;
      var j := 0;
      while j < |c|
        invariant 0 <= j <= |c| && |pa| == |pa0| + j && pa[..|pa0|] == pa0 && da == da0 + c[..j]
        invariant forall k :: |pa0| <= k < |pa| ==> fresh(pa[k])
        invariant Run(pa, da) && (pa != [] ==> pa[0].prev == null)
        invariant pred == (if pa == [] then null else pa[|pa| - 1])
        invariant j > 0 ==> pred.next == null
        invariant first == (if pa == [] then old(first) else pa[0])
      {
        var e := c[j];
        var newNode := LinkAfter(pred, e, pa, da);
        pred := newNode;
        assert c[..j + 1] == c[..j] + [e];
        pa, da := pa + [newNode], da + [e];
        j := j + 1;
      }
      assert c[..j] == c;
    }

    /**
     * The end of `addAll`: the list takes the nodes `pa + sx`, and `pred`,
     * the last new node, becomes `last` or is linked both ways to `succ`,
     * the first node of the run `sx`.
     */
    method CloseRun(pred: Node<T>, succ: Node?<T>, numNew: int, ghost pa: seq<Node<T>>, ghost da: seq<T>, ghost sx: seq<Node<T>>, ghost dx: seq<T>)
      requires Run(pa, da) && Run(sx, dx) && Distinct(pa + sx) && pa != []
      requires first == pa[0] && pa[0].prev == null && pred == pa[|pa| - 1] && pred.next == null
      requires succ == (if sx == [] then null else sx[0])
      requires sx != [] ==> last == sx[|sx| - 1] && sx[|sx| - 1].next == null
      requires size + numNew == |pa + sx|
      modifies this, pred, succ
      ensures Valid() && nodes == pa + sx && contents == da + dx && modCount == old(modCount) + 1
    {
      assert forall i :: 0 <= i < |pa| ==> (pa + sx)[i] == pa[i];
      assert forall i :: 0 <= i < |sx| ==> (pa + sx)[|pa| + i] == sx[i];
      assert succ != null ==> succ !in pa;
      assert pred !in sx;
      if succ == null {
        last := pred;
      } else {
        pred.next := succ;
        succ.prev := pred;
      }
      size := size + numNew;
      modCount := modCount + 1;
      nodes := pa + sx;
      contents := da + dx;
      RunJoin(pa, da, sx, dx, first, last);
    }

    /** The list cut at `index`: the runs before and after, and the nodes `addAll` links between. */
    lemma SpliceSetup(index: int, pred: Node?<T>, succ: Node?<T>)
      requires Valid() && 0 <= index <= |nodes|
      requires pred == (if index == 0 then null else nodes[index - 1])
      requires succ == (if index == |nodes| then null else nodes[index])
      ensures Run(nodes[..index], contents[..index]) && Run(nodes[index..], contents[index..])
      ensures nodes[..index] != [] ==> nodes[..index][0].prev == null && first == nodes[..index][0]
      ensures pred == (if nodes[..index] == [] then null else nodes[..index][index - 1])
      ensures pred != null ==> pred !in nodes[index..]
      ensures nodes[index..] != [] ==> succ == nodes[index..][0] && last == nodes[|nodes| - 1] && nodes[|nodes| - 1].next == null
    {
      RunParts(nodes, contents, index);
    }

    /**
     * The splicing part of `addAll`: new nodes for `c`, in order, between
     * `pred` and `succ`, the nodes around position `index`.
     */
    method Splice(index: int, c: seq<T>, pred0: Node?<T>, succ: Node?<T>)
      requires Valid() && 0 <= index <= |nodes| && c != []
      requires pred0 == (if index == 0 then null else nodes[index - 1])
      requires succ == (if index == |nodes| then null else nodes[index])
      modifies this, nodes
      ensures Valid() && contents == Inserted(old(contents), index, c) && modCount == old(modCount) + 1
      ensures |nodes| == |old(nodes)| + |c| && nodes[..index] == old(nodes[..index]) && nodes[index + |c|..] == old(nodes[index..])
    {
      var pred := pred0;
      var numNew := |c|;
      ghost var ns, cs := nodes, contents;
      ghost var sx, dx := ns[index..], cs[index..];
      SpliceSetup(index, pred, succ);
      ghost var pa, da;
      pred, pa, da := LinkRun(c, pred, ns[..index], cs[..index]);
      assert Run(sx, dx);
      assert forall j :: index <= j < |pa| ==> pa[j] !in ns;
      SpliceClose(index, pred, succ, numNew, pa, da, ns, cs);
    }

    /** The new nodes `pa` take the place of `ns[..index]`, and the list closes over them and `ns[index..]`. */
    method SpliceClose(index: int, pred: Node<T>, succ: Node?<T>, numNew: int, ghost pa: seq<Node<T>>, ghost da: seq<T>,
                       ghost ns: seq<Node<T>>, ghost cs: seq<T>)
      requires Run(pa, da) && pa != [] && first == pa[0] && pa[0].prev == null && pred == pa[|pa| - 1] && pred.next == null
      requires 0 <= index <= |ns| == |cs| == size && 0 < numNew && |pa| == index + numNew
      requires pa[..index] == ns[..index] && Distinct(ns)
      requires forall j :: index <= j < |pa| ==> pa[j] !in ns
      requires Run(ns[index..], cs[index..])
      requires succ == (if index == |ns| then null else ns[index])
      requires index < |ns| ==> last == ns[|ns| - 1] && ns[|ns| - 1].next == null
      modifies this, pred, succ
      ensures Valid() && nodes == pa + ns[index..] && contents == da + cs[index..] && modCount == old(modCount) + 1
      ensures nodes[..index] == ns[..index] && nodes[|pa|..] == ns[index..]
    {
      SpliceShape(ns, index, pa);
      CloseRun(pred, succ, numNew, pa, da, ns[index..], cs[index..]);
    }

    /**
     * `addAll(index, c)`: links `c`'s items, in order, into a position
     * index; an empty `c` changes nothing and reports no change.
     */
    method AddAll(index: int, c: seq<T>) returns (r: Result<bool>)
      requires Valid()
      modifies this, nodes
      ensures Valid()
      ensures !IsPositionIndex(index, |old(contents)|) ==> r == Err(IndexOutOfBounds) && nodes == old(nodes) && contents == old(contents) && modCount == old(modCount)
      ensures IsPositionIndex(index, |old(contents)|) && c == [] ==> r == Ok(false) && nodes == old(nodes) && contents == old(contents) && modCount == old(modCount)
      ensures IsPositionIndex(index, |old(contents)|) && c != [] ==>
        && r == Ok(true) && contents == Inserted(old(contents), index, c) && modCount == old(modCount) + 1
        && |nodes| == |old(nodes)| + |c| && nodes[..index] == old(nodes[..index]) && nodes[index + |c|..] == old(nodes[index..])
    {
      if !IsPositionIndex(index, size) {
        return Err(IndexOutOfBounds);
      }
      var numNew := |c|;
      if numNew == 0 {
        return Ok(false);
      }
      var pred: Node?<T>, succ: Node?<T>;
      if index == size {
        succ := null;
        pred := last;
      } else {
        var x := NodeAt(index);
        succ := x;
        pred := x.prev;
      }
      assert index > 0 ==> pred == nodes[index - 1];
      assert index == 0 ==> pred == null;
      Splice(index, c, pred, succ);
      return Ok(true);
    }

    /** `listIterator(index)`: a cursor before the node at a position index; any other index throws. */
    method ListIterator(index: int) returns (r: Result<ListItr<T>>)
      requires Valid()
      ensures !IsPositionIndex(index, |contents|) ==> r == Err(IndexOutOfBounds)
      ensures IsPositionIndex(index, |contents|) ==>
        && r.Ok? && fresh(r.value) && r.value.list == this && r.value.Valid()
        && r.value.nextIndex == index && r.value.lastReturned == null && r.value.expectedModCount == modCount
    {
      if !IsPositionIndex(index, size) {
        return Err(IndexOutOfBounds);
      }
      var it := new ListItr(this, index);
      return Ok(it);
    }
  }

  /**
   * `LinkedList.ListItr`: a cursor between `nextIndex - 1` and `nextIndex`.
   * `lastReturned` is the node the last `next` or `previous` returned, at
   * the ghost position `lastIndex`.  The cursor is only meaningful while
   * `expectedModCount` matches the list's `modCount`; every operation but
   * `hasNext`/`hasPrevious` first checks that and otherwise throws
   * `ConcurrentModificationException`.
   */
  class ListItr<T(==)> {
    const list: LinkedList<T>
    var lastReturned: Node?<T>
    var next: Node?<T>
    var nextIndex: int
    var expectedModCount: int
    ghost var lastIndex: int

    /** The cursor's position is consistent with the nodes `ns`. */
    ghost predicate Positioned(ns: seq<Node<T>>)
      reads this
    {
      && 0 <= nextIndex <= |ns|
      && next == (if nextIndex < |ns| then ns[nextIndex] else null)
      && (lastReturned != null ==>
            && 0 <= lastIndex < |ns| && ns[lastIndex] == lastReturned
            && (lastIndex == nextIndex - 1 || lastIndex == nextIndex))
    }

    /**
     * The list is valid, its `modCount` has not fallen behind the
     * cursor's, and while they agree the cursor is positioned.
     */
    ghost predicate Valid()
      reads this, list, list.nodes
    {
      && list.Valid()
      && expectedModCount <= list.modCount
      && (expectedModCount == list.modCount ==> Positioned(list.nodes))
    }

    /** `new ListItr(index)`: `next` is the node at `index`, or null at the end. */
    constructor (list: LinkedList<T>, index: int)
      requires list.Valid() && IsPositionIndex(index, |list.nodes|)
      ensures this.list == list && Valid() && Positioned(list.nodes)
      ensures nextIndex == index && lastReturned == null && expectedModCount == list.modCount
    {
      var n: Node?<T> := null;
      if index != list.size {
        n := list.NodeAt(index);
      }
      this.list := list;
      lastReturned := null;
      expectedModCount := list.modCount;
      next := n;
      nextIndex := index;
    }

    /** `hasNext()`: whether `nextIndex` is below the list's size. */
    method HasNext() returns (b: bool)
      requires Valid()
      ensures b <==> nextIndex < |list.contents|
    {
      return nextIndex < list.size;
    }

    /** `hasPrevious()`: whether `nextIndex` is above zero. */
    method HasPrevious() returns (b: bool)
      requires Valid()
      ensures b <==> nextIndex > 0
    {
      return nextIndex > 0;
    }

    /** `next()`: returns the item after the cursor and steps over it. */
    method Next() returns (r: Result<T>)
      requires Valid()
      modifies this
      ensures Valid() && expectedModCount == old(expectedModCount)
      ensures old(expectedModCount) != list.modCount ==> r == Err(ConcurrentModification) && unchanged(this)
      ensures old(expectedModCount) == list.modCount && old(nextIndex) >= |list.contents| ==> r == Err(NoSuchElement) && unchanged(this)
      ensures old(expectedModCount) == list.modCount && old(nextIndex) < |list.contents| ==>
        && r == Ok(list.contents[old(nextIndex)]) && nextIndex == old(nextIndex) + 1
        && lastReturned == list.nodes[old(nextIndex)] && lastIndex == old(nextIndex)
    {
      if list.modCount != expectedModCount {
        return Err(ConcurrentModification);
      }
      if !(nextIndex < list.size) {
        return Err(NoSuchElement);
      }
      assert nextIndex < |list.nodes| - 1 ==> next.next == list.nodes[nextIndex + 1];
      lastReturned := next;
      lastIndex := nextIndex;
      next := next.next;
      nextIndex := nextIndex + 1;
      return Ok(lastReturned.item);
    }

    /** `previous()`: steps back over the item before the cursor and returns it. */
    method Previous() returns (r: Result<T>)
      requires Valid()
      modifies this
      ensures Valid() && expectedModCount == old(expectedModCount)
      ensures old(expectedModCount) != list.modCount ==> r == Err(ConcurrentModification) && unchanged(this)
      ensures old(expectedModCount) == list.modCount && old(nextIndex) <= 0 ==> r == Err(NoSuchElement) && unchanged(this)
      ensures old(expectedModCount) == list.modCount && old(nextIndex) > 0 ==>
        && r == Ok(list.contents[old(nextIndex) - 1]) && nextIndex == old(nextIndex) - 1
        && lastReturned == list.nodes[nextIndex] && lastIndex == nextIndex
    {
      if list.modCount != expectedModCount {
        return Err(ConcurrentModification);
      }
      if !(nextIndex > 0) {
        return Err(NoSuchElement);
      }
      assert nextIndex < |list.nodes| ==> next.prev == list.nodes[nextIndex - 1];
      next := if next == null then list.last else next.prev;
      lastReturned := next;
      nextIndex := nextIndex - 1;
      lastIndex := nextIndex;
      return Ok(lastReturned.item);
    }

    /**
     * `remove()`: unlinks the node the last `next` or `previous` returned;
     * the cursor ends where that node was, and stays in step with the list.
     */
    method Remove() returns (s: Status)
      requires Valid()
      modifies this, list, list.nodes
      ensures Valid()
      ensures old(expectedModCount) != old(list.modCount) ==> s == Thrown(ConcurrentModification) && unchanged(this) && unchanged(list)
      ensures old(expectedModCount) == old(list.modCount) && old(lastReturned) == null ==> s == Thrown(IllegalState) && unchanged(this) && unchanged(list)
      ensures old(expectedModCount) == old(list.modCount) && old(lastReturned) != null ==>
        && s == Done && list.contents == Without(old(list.contents), old(lastIndex))
        && nextIndex == old(lastIndex) && lastReturned == null && expectedModCount == list.modCount
    {
      if list.modCount != expectedModCount {
        return Thrown(ConcurrentModification);
      }
      if lastReturned == null {
        return Thrown(IllegalState);
      }
      ghost var k := lastIndex;
      ghost var ns := list.nodes;
      assert k > 0 ==> lastReturned.prev == ns[k - 1];
      assert k < |ns| - 1 ==> lastReturned.next == ns[k + 1];
      assert next == lastReturned <==> k == nextIndex;
      var x := lastReturned;
      var lastNext := x.next;
      // The cursor is moved before the unlink, which reads none of its fields.
      if next == x {
        next := lastNext;
      } else {
        nextIndex := nextIndex - 1;
      }
      lastReturned := null;
      expectedModCount := expectedModCount + 1;
      RemovedPositioned(ns, k);
      var _ := list.Unlink(x, k);
      return Done;
    }

    /** A cursor left at `k` with nothing returned is positioned on `ns` without its `k`th node. */
    lemma RemovedPositioned(ns: seq<Node<T>>, k: int)
      requires 0 <= k < |ns| && nextIndex == k && lastReturned == null
      requires next == (if k + 1 < |ns| then ns[k + 1] else null)
      ensures Positioned(Without(ns, k))
    {
    }

    /**
     * `set(e)`: replaces the item of the node the last `next` or `previous`
     * returned.  A missing node is reported before a concurrent change.
     */
    method Set(e: T) returns (s: Status)
      requires Valid()
      modifies list, list.nodes
      ensures Valid() && list.nodes == old(list.nodes) && list.modCount == old(list.modCount)
      ensures lastReturned == null ==> s == Thrown(IllegalState) && list.contents == old(list.contents)
      ensures lastReturned != null && expectedModCount != list.modCount ==> s == Thrown(ConcurrentModification) && list.contents == old(list.contents)
      ensures lastReturned != null && expectedModCount == list.modCount ==> s == Done && list.contents == old(list.contents)[lastIndex := e]
    {
      if lastReturned == null {
        return Thrown(IllegalState);
      }
      if list.modCount != expectedModCount {
        return Thrown(ConcurrentModification);
      }
      lastReturned.item := e;
      list.contents := list.contents[lastIndex := e];
      return Done;
    }

    /** `add(e)`: links `e` in front of the cursor; the cursor steps past it and stays in step with the list. */
    method Add(e: T) returns (s: Status)
      requires Valid()
      modifies this, list, list.nodes
      ensures Valid()
      ensures old(expectedModCount) != old(list.modCount) ==> s == Thrown(ConcurrentModification) && unchanged(this) && unchanged(list)
      ensures old(expectedModCount) == old(list.modCount) ==>
        && s == Done && list.contents == Inserted(old(list.contents), old(nextIndex), [e])
        && nextIndex == old(nextIndex) + 1 && lastReturned == null && expectedModCount == list.modCount
    {
      if list.modCount != expectedModCount {
        return Thrown(ConcurrentModification);
      }
      lastReturned := null;
      ghost var k := nextIndex;
      // The cursor is moved before the link, which reads none of its fields.
      nextIndex := nextIndex + 1;
      expectedModCount := expectedModCount + 1;
      if next == null {
        list.LinkLast(e);
        assert list.contents == Inserted(old(list.contents), k, [e]);
      } else {
        assert k > 0 ==> next.prev == list.nodes[k - 1];
        list.LinkBefore(e, next, k);
      }
      return Done;
    }
  }

  /**
   * Fail-fast: a cursor made before the list is structurally changed
   * behind its back refuses to move.
   */
  method FailFastAfterOutsideAdd() returns (r: Result<int>)
    ensures r == Err(ConcurrentModification)
  {
    var list := new LinkedList<int>();
    var _ := list.Add(1);
    var made := list.ListIterator(0);
    var it := made.value;
    var _ := list.Add(2);
    r := it.Next();
  }

  /**
   * Walking [1, 2] with a cursor and removing the first element through
   * it leaves [2], and the cursor stays usable and yields 2 next.
   */
  method RemoveWhileIterating() returns (first: Result<int>, size: int, second: Result<int>)
    ensures first == Ok(1) && size == 1 && second == Ok(2)
  {
    var list := new LinkedList<int>();
    var _ := list.Add(1);
    var _ := list.Add(2);
    assert list.contents == [1, 2];
    var made := list.ListIterator(0);
    var it := made.value;
    first := it.Next();
    var s := it.Remove();
    assert list.contents == Without([1, 2], 0) == [2];
    size := list.size;
    second := it.Next();
  }
}
