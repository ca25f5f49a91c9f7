/** The search family of avl-inner.h over an ordered tree that may hold equal keys.
    A node is named by its in-order position. */
module AvlSearch {
  import opened Options

  datatype Tree = Nil | Node(left: Tree, key: int, right: Tree)

  const AVL_LEFT := -1
  const AVL_RIGHT := 1

  function Keys(t: Tree): seq<int> {
    match t
    case Nil => []
    case Node(l, k, r) => Keys(l) + [k] + Keys(r)
  }

  ghost predicate Ordered(s: seq<int>) { forall i, j | 0 <= i < j < |s| :: s[i] <= s[j] }

  /** The comparison function: the sign of the searched key against the holder's. */
  function Cmp(key: int, holder: int): int {
    if key < holder then -1 else if key > holder then 1 else 0
  }

  /** What a search leaves behind: the holder it stopped on (NULL only in an empty tree),
      and how the searched key compares with it. */
  datatype Stop = Stop(holder: Option<nat>, delta: int)

  /** GNU C's `a ?: b`. */
  function Elvis(a: int, b: int): int { if a != 0 then a else b }

  function Child(t: Tree, side: int): Tree
    requires t.Node?
  {
    if side < 0 then t.left else t.right
  }

  /** The descent from subtree t, whose leftmost node has in-order position base. */
  function Descend(t: Tree, key: int, dir: int, base: nat): Stop
    requires t.Node?
  {
    var pos, delta := base + |Keys(t.left)|, Cmp(key, t.key);
    var side := Elvis(delta, dir);
    if side == 0 || Child(t, side).Nil? then
      Stop(Some(pos), delta)
    else
      Descend(Child(t, side), key, dir, if side < 0 then base else pos + 1)
  }

  function SearchStop(t: Tree, key: int, dir: int): Stop {
    if t.Nil? then Stop(None, AVL_RIGHT) else Descend(t, key, dir, 0)
  }

  /** The loop of DECLARE_AVL_SEARCH. */
  method Search(t: Tree, key: int, dir: int) returns (holder: Option<nat>, delta: int)
    ensures Stop(holder, delta) == SearchStop(t, key, dir)
    ensures t.Nil? ==> holder == None && delta == 1
  {
    delta := AVL_RIGHT;
    if t.Nil? { return None, delta; }
    var at: Tree, base: nat := t, 0;
    while true
      invariant at.Node?
      invariant Descend(at, key, dir, base) == SearchStop(t, key, dir)
      decreases at
    {
      delta := Cmp(key, at.key);
      var side := Elvis(delta, dir);
      holder := Some(base + |Keys(at.left)|);
      if side == 0 { break; }
      var next := Child(at, side);
      if next.Nil? { break; }
      base := if side < 0 then base else base + |Keys(at.left)| + 1;
      at := next;
    }
  }

  // ----- where a search stops -----

  /** Everything up to position p is below the key: strictly, unless equal keys send the
      search right. */
  ghost predicate Below(s: seq<int>, key: int, dir: int, p: int) {
    0 <= p < |s| ==> s[p] < key || (dir > 0 && s[p] == key)
  }

  ghost predicate Above(s: seq<int>, key: int, dir: int, p: int) {
    0 <= p < |s| ==> s[p] > key || (dir < 0 && s[p] == key)
  }

  /** The holder is a match, or the in-order neighbour of the place where the key belongs. */
  ghost predicate Lands(s: seq<int>, key: int, dir: int, stop: Stop) {
    && stop.holder.Some?
    && var p := stop.holder.value;
    && p < |s|
    && stop.delta == Cmp(key, s[p])
    && (Elvis(stop.delta, dir) < 0 ==> Below(s, key, dir, p - 1))
    && (Elvis(stop.delta, dir) > 0 ==> Above(s, key, dir, p + 1))
  }

  lemma {:induction false} Slices(t: Tree, base: nat, s: seq<int>)
    requires t.Node? && base + |Keys(t)| <= |s| && Keys(t) == s[base..base + |Keys(t)|]
    ensures
      var pos := base + |Keys(t.left)|;
      && base + |Keys(t)| == pos + 1 + |Keys(t.right)|
      && s[pos] == t.key && s[base..pos] == Keys(t.left) && s[pos + 1..pos + 1 + |Keys(t.right)|] == Keys(t.right)
  {
    var n := |Keys(t.left)|;
    assert Keys(t)[n] == t.key && Keys(t)[..n] == Keys(t.left) && Keys(t)[n + 1..] == Keys(t.right);
  }

  lemma {:induction false} DescendLands(t: Tree, key: int, dir: int, base: nat, s: seq<int>)
    requires t.Node? && base + |Keys(t)| <= |s| && Keys(t) == s[base..base + |Keys(t)|]
    requires Below(s, key, dir, base - 1) && Above(s, key, dir, base + |Keys(t)|)
    ensures Lands(s, key, dir, Descend(t, key, dir, base))
  {
    hide Keys;
    Slices(t, base, s);
    EmptyKeys();
    var pos := base + |Keys(t.left)|;
    var side := Elvis(Cmp(key, t.key), dir);
    if side < 0 && t.left.Node? {
      DescendLands(t.left, key, dir, base, s);
    } else if side > 0 && t.right.Node? {
      DescendLands(t.right, key, dir, pos + 1, s);
    }
  }

  lemma EmptyKeys()
    ensures Keys(Nil) == []
  {}

  /** In an ordered tree the search lands on a match or beside the missing key. */
  lemma SearchLands(t: Tree, key: int, dir: int)
    requires t.Node?
    ensures Lands(Keys(t), key, dir, SearchStop(t, key, dir))
  {
    DescendLands(t, key, dir, 0, Keys(t));
  }

  // ----- the exact stop -----

  /** The subtree whose root has in-order position p. */
  function NodeAt(t: Tree, p: nat): (node: Tree)
    requires p < |Keys(t)|
    ensures node.Node? && node.key == Keys(t)[p]
  {
    var n := |Keys(t.left)|;
    if p < n then NodeAt(t.left, p) else if p == n then t else NodeAt(t.right, p - n - 1)
  }

  /** The first r keys satisfy the left side of the cut and the others the right side: below
      the key and not, or (inclusive) not above the key and above. */
  ghost predicate Cut(s: seq<int>, key: int, inclusive: bool, r: nat) {
    && r <= |s|
    && (forall i | 0 <= i < r :: s[i] < key || (inclusive && s[i] == key))
    && (forall i | r <= i < |s| :: s[i] > key || (!inclusive && s[i] == key))
  }

  lemma CutParts(t: Tree, key: int, inclusive: bool, r: nat)
    requires t.Node? && Cut(Keys(t), key, inclusive, r)
    ensures
      var n := |Keys(t.left)|;
      && Cut(Keys(t.left), key, inclusive, if r <= n then r else n)
      && Cut(Keys(t.right), key, inclusive, if r <= n then 0 else r - n - 1)
      && (r <= n <==> t.key > key || (!inclusive && t.key == key))
  {
    var s, n := Keys(t), |Keys(t.left)|;
    assert s[n] == t.key;
    assert forall i | 0 <= i < n :: Keys(t.left)[i] == s[i];
    assert forall i | 0 <= i < |Keys(t.right)| :: Keys(t.right)[i] == s[n + 1 + i];
  }

  /** With keys equal to the searched one sending it left, the search stops on the first
      node not below the key if that node has no left child, and otherwise just before it. */
  ghost predicate StopsLeft(t: Tree, key: int, base: nat, r: nat, stop: Stop)
    requires r <= |Keys(t)|
  {
    && stop.holder.Some?
    && if r < |Keys(t)| && NodeAt(t, r).left.Nil? then
         stop.holder.value == base + r && stop.delta == Cmp(key, Keys(t)[r])
       else
         stop.holder.value == base + r - 1 && stop.delta == 1
  }

  /** The mirror image: the last node not above the key, or just behind it. */
  ghost predicate StopsRight(t: Tree, key: int, base: nat, r: nat, stop: Stop)
    requires r <= |Keys(t)|
  {
    && stop.holder.Some?
    && if r > 0 && NodeAt(t, r - 1).right.Nil? then
         stop.holder.value == base + r - 1 && stop.delta == Cmp(key, Keys(t)[r - 1])
       else
         stop.holder.value == base + r && stop.delta == -1
  }

  lemma {:induction false} DescendLeft(t: Tree, key: int, base: nat, r: nat)
    requires t.Node? && Cut(Keys(t), key, false, r)
    ensures StopsLeft(t, key, base, r, Descend(t, key, AVL_LEFT, base))
  {
    hide Cut;
    var n := |Keys(t.left)|;
    CutParts(t, key, false, r);
    EmptyKeys();
    if r <= n && t.left.Node? {
      DescendLeft(t.left, key, base, r);
    } else if r > n && t.right.Node? {
      DescendLeft(t.right, key, base + n + 1, r - n - 1);
    }
  }

  lemma {:induction false} DescendRight(t: Tree, key: int, base: nat, r: nat)
    requires t.Node? && Cut(Keys(t), key, true, r)
    ensures StopsRight(t, key, base, r, Descend(t, key, AVL_RIGHT, base))
  {
    hide Cut;
    var n := |Keys(t.left)|;
    CutParts(t, key, true, r);
    EmptyKeys();
    if r <= n && t.left.Node? {
      DescendRight(t.left, key, base, r);
    } else if r > n && t.right.Node? {
      DescendRight(t.right, key, base + n + 1, r - n - 1);
    }
  }

  /** When a match exists, the search with AVL_LEFT stops on the first match exactly when
      that node has no left child; otherwise it stops on the node before it. */
  lemma FirstMatchStop(t: Tree, key: int, p: nat)
    requires Ordered(Keys(t)) && p < |Keys(t)| && Keys(t)[p] == key
    requires forall i | 0 <= i < p :: Keys(t)[i] < key
    ensures
      var stop := SearchStop(t, key, AVL_LEFT);
      if NodeAt(t, p).left.Nil? then stop == Stop(Some(p), 0)
      else p > 0 && stop == Stop(Some(p - 1), 1)
  {
    DescendLeft(t, key, 0, p);
  }

  /** The mirror image for AVL_RIGHT and the last match. */
  lemma LastMatchStop(t: Tree, key: int, p: nat)
    requires Ordered(Keys(t)) && p < |Keys(t)| && Keys(t)[p] == key
    requires forall i | p < i < |Keys(t)| :: Keys(t)[i] > key
    ensures
      var stop := SearchStop(t, key, AVL_RIGHT);
      if NodeAt(t, p).right.Nil? then stop == Stop(Some(p), 0)
      else p + 1 < |Keys(t)| && stop == Stop(Some(p + 1), -1)
  {
    DescendRight(t, key, 0, p + 1);
    SearchLands(t, key, AVL_RIGHT);
  }

  /** The concrete case: in the tree 3 < 5 with 5 at the top, the search for 5 with AVL_LEFT
      stops on 3. */
  lemma LeftSearchLeavesMatch()
    ensures
      var t := Node(Node(Nil, 3, Nil), 5, Nil);
      Keys(t) == [3, 5] && SearchStop(t, 5, AVL_LEFT) == Stop(Some(0), 1)
  {
    assert Keys(Node(Nil, 3, Nil)) == [3];
  }

  // ----- the queries -----

  /** avl_inorder: the in-order neighbour in the given direction, or NULL. */
  function Inorder(t: Tree, p: nat, dir: int): Option<nat> {
    if 0 <= p + dir < |Keys(t)| then Some(p + dir) else None
  }

  function Find(t: Tree, key: int): Option<nat> {
    var stop := SearchStop(t, key, 0);
    if stop.delta == 0 then stop.holder else None
  }

  function SearchNearest(t: Tree, key: int, dir: int): Option<nat> {
    var stop := SearchStop(t, key, 0);
    if stop.holder.None? || stop.delta != dir then stop.holder
    else Inorder(t, stop.holder.value, dir)
  }

  function SearchLe(t: Tree, key: int): Option<nat> { SearchNearest(t, key, AVL_LEFT) }

  function SearchGe(t: Tree, key: int): Option<nat> { SearchNearest(t, key, AVL_RIGHT) }

  function SearchMulti(t: Tree, key: int, dir: int): Option<nat> {
    var stop := SearchStop(t, key, dir);
    if stop.delta == 0 then stop.holder
    else if stop.holder.None? then None
    else Inorder(t, stop.holder.value, -dir)
  }

  function SearchFirst(t: Tree, key: int): Option<nat> { SearchMulti(t, key, AVL_LEFT) }

  function SearchLast(t: Tree, key: int): Option<nat> { SearchMulti(t, key, AVL_RIGHT) }

  // ----- what the queries answer -----

  ghost predicate Matches(t: Tree, key: int, p: Option<nat>) {
    p.Some? && p.value < |Keys(t)| && Keys(t)[p.value] == key
  }

  /** avl_search finds some match if there is one, and NULL otherwise. */
  lemma FindCorrect(t: Tree, key: int)
    requires Ordered(Keys(t))
    ensures if key in Keys(t) then Matches(t, key, Find(t, key)) else Find(t, key) == None
  {
    if t.Node? { SearchLands(t, key, 0); }
  }

  /** avl_search_le finds a greatest element not above the key; NULL when all are above. */
  lemma SearchLeCorrect(t: Tree, key: int)
    requires Ordered(Keys(t))
    ensures
      var s, r := Keys(t), SearchLe(t, key);
      if r.None? then forall i | 0 <= i < |s| :: s[i] > key
      else r.value < |s| && s[r.value] <= key && forall i | 0 <= i < |s| && s[i] <= key :: s[i] <= s[r.value]
  {
    if t.Node? { SearchLands(t, key, 0); }
  }

  /** avl_search_ge finds a least element not below the key; NULL when all are below. */
  lemma SearchGeCorrect(t: Tree, key: int)
    requires Ordered(Keys(t))
    ensures
      var s, r := Keys(t), SearchGe(t, key);
      if r.None? then forall i | 0 <= i < |s| :: s[i] < key
      else r.value < |s| && s[r.value] >= key && forall i | 0 <= i < |s| && s[i] >= key :: s[i] >= s[r.value]
  {
    if t.Node? { SearchLands(t, key, 0); }
  }

  /** avl_search_first returns the first match exactly when there is a match. */
  lemma SearchFirstCorrect(t: Tree, key: int)
    requires Ordered(Keys(t))
    ensures Matches(t, key, SearchFirst(t, key)) <==> key in Keys(t)
    ensures key in Keys(t) ==> forall i | 0 <= i < SearchFirst(t, key).value :: Keys(t)[i] < key
  {
    if t.Node? { SearchLands(t, key, AVL_LEFT); }
  }

  /** avl_search_last returns the last match exactly when there is a match. */
  lemma SearchLastCorrect(t: Tree, key: int)
    requires Ordered(Keys(t))
    ensures Matches(t, key, SearchLast(t, key)) <==> key in Keys(t)
    ensures key in Keys(t) ==> forall i | SearchLast(t, key).value < i < |Keys(t)| :: Keys(t)[i] > key
  {
    if t.Node? { SearchLands(t, key, AVL_RIGHT); }
  }

  /** Without a match avl_search_first answers NULL exactly when the tree is empty, or the
      key is above all keys, or it is above all but the last and the last node has no left
      child. In all other cases it answers a stranger above the key. */
  lemma SearchFirstMissing(t: Tree, key: int)
    requires Ordered(Keys(t)) && key !in Keys(t)
    ensures
      var s, n := Keys(t), |Keys(t)|;
      SearchFirst(t, key) == None <==>
        || n == 0
        || s[n - 1] < key
        || (NodeAt(t, n - 1).left.Nil? && (n == 1 || s[n - 2] < key))
    ensures var r := SearchFirst(t, key); r.Some? ==> r.value < |Keys(t)| && Keys(t)[r.value] > key
  {
    hide Keys, NodeAt, SearchFirst, SearchLast;
    EmptyKeys();
    NilHoldsNothing(key);
    if t.Node? {
      var r := CutPoint(Keys(t), key, false);
      FirstStranger(t, key, r);
    }
  }

  lemma NilHoldsNothing(key: int)
    ensures SearchFirst(Nil, key) == SearchLast(Nil, key) == None
  {}

  /** Where the cut decides the answer for a key that is missing. */
  lemma FirstStranger(t: Tree, key: int, r: nat)
    requires t.Node? && Ordered(Keys(t)) && key !in Keys(t) && Cut(Keys(t), key, false, r)
    ensures
      var q := if r < |Keys(t)| && NodeAt(t, r).left.Nil? then r + 1 else r;
      SearchFirst(t, key) == if q < |Keys(t)| then Some(q) else None
  {
    hide Keys, Descend, NodeAt;
    DescendLeft(t, key, 0, r);
    SearchLands(t, key, AVL_LEFT);
  }

  /** The mirror image for avl_search_last. */
  lemma SearchLastMissing(t: Tree, key: int)
    requires Ordered(Keys(t)) && key !in Keys(t)
    ensures
      var s, n := Keys(t), |Keys(t)|;
      SearchLast(t, key) == None <==>
        || n == 0
        || s[0] > key
        || (NodeAt(t, 0).right.Nil? && (n == 1 || s[1] > key))
    ensures var r := SearchLast(t, key); r.Some? ==> r.value < |Keys(t)| && Keys(t)[r.value] < key
  {
    hide Keys, NodeAt, SearchFirst, SearchLast;
    EmptyKeys();
    NilHoldsNothing(key);
    if t.Node? {
      var r := CutPoint(Keys(t), key, true);
      LastStranger(t, key, r);
    }
  }

  /** The mirror image for avl_search_last. */
  lemma LastStranger(t: Tree, key: int, r: nat)
    requires t.Node? && Ordered(Keys(t)) && key !in Keys(t) && Cut(Keys(t), key, true, r)
    ensures
      var q := if r > 0 && NodeAt(t, r - 1).right.Nil? then r - 2 else r - 1;
      SearchLast(t, key) == if q >= 0 then Some(q) else None
  {
    hide Keys, Descend, NodeAt;
    DescendRight(t, key, 0, r);
    SearchLands(t, key, AVL_RIGHT);
  }

  lemma {:induction false} CutPoint(s: seq<int>, key: int, inclusive: bool) returns (r: nat)
    requires Ordered(s)
    ensures Cut(s, key, inclusive, r)
  {
    r := 0;
    while r < |s| && (s[r] < key || (inclusive && s[r] == key))
      invariant r <= |s|
      invariant forall i | 0 <= i < r :: s[i] < key || (inclusive && s[i] == key)
    {
      r := r + 1;
    }
  }

  /** The concrete case: asked for 3 in the tree 5 < 7, avl_search_first answers 7. */
  lemma SearchFirstStranger()
    ensures
      var t := Node(Nil, 5, Node(Nil, 7, Nil));
      Ordered(Keys(t)) && 3 !in Keys(t) && SearchFirst(t, 3) == Some(1) && Keys(t)[1] == 7
  {}

  /** Asked for 9 in the tree 5 < 7, avl_search_last answers 5. */
  lemma SearchLastStranger()
    ensures
      var t := Node(Node(Nil, 5, Nil), 7, Nil);
      Ordered(Keys(t)) && 9 !in Keys(t) && SearchLast(t, 9) == Some(0) && Keys(t)[0] == 5
  {
    var t := Node(Node(Nil, 5, Nil), 7, Nil);
    assert Keys(Node(Nil, 5, Nil)) == [5];
    assert Keys(t) == [5, 7];
    assert SearchStop(t, 9, AVL_RIGHT) == Stop(Some(1), 1);
  }
}
