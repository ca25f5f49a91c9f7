/** The intrusive circular lists of private-list.h. */
module PrivateList {

  /** struct pvholder. A NODE of lstLib.h is a holder followed by its list pointer, at the
      same address, so the pointer is kept here; plain private lists never touch it. */
  class Holder {
    var next: Holder
    var prev: Holder
    var list: object?

    /** initpvh on fresh memory. */
    constructor ()
      ensures next == this && prev == this && list == null
    {
      next := this;
      prev := this;
      list := null;
    }
  }

  /** A tour of a circular list starts and ends at its head; no other holder repeats. */
  ghost predicate Tour(c: seq<Holder>) {
    && |c| >= 2
    && c[0] == c[|c| - 1]
    && forall i, j | 0 <= i < j < |c| && !(i == 0 && j == |c| - 1) :: c[i] != c[j]
  }

  ghost predicate Linked(a: Holder, b: Holder)
    reads a`next, b`prev
  {
    a.next == b && b.prev == a
  }

  /** next walks the tour forwards and prev walks it backwards. */
  ghost predicate IsRing(c: seq<Holder>)
    reads c`next, c`prev
  {
    Tour(c) && forall i | 0 <= i < |c| - 1 :: Linked(c[i], c[i + 1])
  }

  /** atpvh: links holder right after head. */
  method AttachAfter(head: Holder, holder: Holder, ghost c: seq<Holder>, ghost k: nat)
    requires IsRing(c) && k < |c| - 1 && c[k] == head && holder !in c
    modifies holder`next, holder`prev, c`next, c`prev
    ensures IsRing(c[..k + 1] + [holder] + c[k + 1..])
  {
    assert Linked(c[k], c[k + 1]);
    holder.prev := head;
    holder.next := head.next;
    holder.next.prev := holder;
    head.next := holder;
    ghost var d := c[..k + 1] + [holder] + c[k + 1..];
    forall i | 0 <= i < |d| - 1 ensures Linked(d[i], d[i + 1]) {
      if i < k {
        assert old(Linked(c[i], c[i + 1]));
      } else if i > k + 1 {
        assert old(Linked(c[i - 1], c[i]));
      }
    }
  }

  /** dtpvh: unlinks a member; its own two pointers stay as they were. On a holder that
      is alone on its ring nothing changes. */
  method Detach(holder: Holder, ghost c: seq<Holder>, ghost k: nat)
    requires IsRing(c) && k < |c| - 1 && c[k] == holder
    requires k == 0 ==> |c| == 2
    modifies c`next, c`prev
    ensures holder.next == old(holder.next) && holder.prev == old(holder.prev)
    ensures IsRing(if k == 0 then c else c[..k] + c[k + 1..])
  {
    assert Linked(c[k], c[k + 1]);
    if k == 0 {
      assert Linked(c[0], c[1]);
    } else {
      assert Linked(c[k - 1], c[k]);
    }
    holder.prev.next := holder.next;
    holder.next.prev := holder.prev;
    if k > 0 {
      ghost var d := c[..k] + c[k + 1..];
      forall i | 0 <= i < |d| - 1 ensures Linked(d[i], d[i + 1]) {
        if i < k - 1 {
          assert old(Linked(c[i], c[i + 1]));
        } else if i >= k {
          assert old(Linked(c[i + 1], c[i + 2]));
        }
      }
    }
  }

  /** struct pvlistobj, with the sequence of holders it stands for. */
  class PvList {
    const head: Holder
    ghost var items: seq<Holder>

    ghost function Ring(): seq<Holder>
      reads this
    {
      [head] + items + [head]
    }

    ghost function Members(): set<Holder>
      reads this
    {
      set h | h in Ring()
    }

    ghost predicate Valid()
      reads this, Members()`next, Members()`prev
    {
      IsRing(Ring())
    }

    /** pvlist_init. */
    constructor ()
      ensures Valid() && items == [] && fresh(head)
    {
      head := new Holder();
      items := [];
    }

    /** pvlist_empty. */
    method IsEmpty() returns (empty: bool)
      requires Valid()
      ensures empty <==> items == []
    {
      assert Linked(Ring()[0], Ring()[1]);
      empty := head.next == head;
    }

    /** pvlist_prepend. */
    method Prepend(holder: Holder)
      requires Valid() && holder !in Ring()
      modifies this, holder`next, holder`prev, Members()`next, Members()`prev
      ensures Valid() && items == [holder] + old(items)
    {
      ghost var c := Ring();
      AttachAfter(head, holder, c, 0);
      items := [holder] + items;
      assert Ring() == c[..1] + [holder] + c[1..];
    }

    /** pvlist_append. */
    method Append(holder: Holder)
      requires Valid() && holder !in Ring()
      modifies this, holder`next, holder`prev, Members()`next, Members()`prev
      ensures Valid() && items == old(items) + [holder]
    {
      ghost var c, k := Ring(), |items|;
      assert Linked(c[k], c[k + 1]);
      AttachAfter(head.prev, holder, c, k);
      items := items + [holder];
      assert Ring() == c[..k + 1] + [holder] + c[k + 1..];
    }

    /** pvlist_insert: right after a member. */
    method Insert(holder: Holder, prev: Holder, ghost k: nat)
      requires Valid() && holder !in Ring() && k < |items| && items[k] == prev
      modifies this, holder`next, holder`prev, Members()`next, Members()`prev
      ensures Valid() && items == old(items)[..k + 1] + [holder] + old(items)[k + 1..]
    {
      ghost var c := Ring();
      AttachAfter(prev, holder, c, k + 1);
      items := items[..k + 1] + [holder] + items[k + 1..];
      assert Ring() == c[..k + 2] + [holder] + c[k + 2..];
    }

    /** pvlist_remove. */
    method Remove(holder: Holder, ghost k: nat)
      requires Valid() && k < |items| && items[k] == holder
      modifies this, Members()`next, Members()`prev
      ensures Valid() && items == old(items)[..k] + old(items)[k + 1..]
      ensures holder.next == old(holder.next) && holder.prev == old(holder.prev)
    {
      hide IsRing;
      ghost var c := Ring();
      assert c[k + 1] == holder && c[..k + 1] + c[k + 2..] == [head] + (items[..k] + items[k + 1..]) + [head];
      Detach(holder, c, k + 1);
      items := items[..k] + items[k + 1..];
    }

    /** pvlist_pop: the first member; on an empty list, the untouched list head itself. */
    method Pop() returns (holder: Holder)
      requires Valid()
      modifies this, Members()`next, Members()`prev
      ensures Valid()
      ensures if old(items) == [] then holder == head && items == []
              else holder == old(items)[0] && items == old(items)[1..]
    {
      ghost var c, k: nat := Ring(), if items == [] then 0 else 1;
      assert Linked(c[0], c[1]);
      holder := head.next;
      Detach(holder, c, k);
      if items != [] {
        items := items[1..];
        assert Ring() == c[..1] + c[2..];
      }
    }

    /** pvlist_join: moves all of src in front of this list. With an empty source the code
        links the source's own head in as if it were a member, and src is no list any more. */
    method Join(src: PvList)
      requires Valid() && src.Valid() && src != this
      requires forall h | h in Ring() :: h !in src.Ring()
      modifies this, src, Members()`next, Members()`prev, src.Members()`next, src.Members()`prev
      ensures Valid()
      ensures old(src.items) != [] ==>
        src.Valid() && src.items == [] && items == old(src.items) + old(items)
      ensures old(src.items) == [] ==>
        !src.Valid() && items == [src.head] + old(items)
    {
      hide IsRing, Tour;
      ghost var mine, theirs := Ring(), src.Ring();
      ghost var moved := if src.items == [] then [src.head] else src.items;
      assert head in mine && src.head in theirs;
      assert theirs[1..|theirs| - 1] == src.items;
      assert [mine[0]] + moved + mine[1..] == [head] + (moved + items) + [head];
      RingTour(theirs);
      assert moved == Moved(theirs);
      Relink(src.head.next, src.head.prev, head, mine, theirs);
      items := moved + items;
      if src.items == [] {
        Broken(src.head, theirs);
      } else {
        src.items := [];
        assert src.Ring() == [theirs[0], theirs[0]];
      }
    }

    /** pvlist_remove, after which the removed holder's pointers are put to any other use. */
    method RemoveAndReuse(holder: Holder, next: Holder, prev: Holder, ghost k: nat)
      requires Valid() && k < |items| && items[k] == holder
      modifies this, Members()`next, Members()`prev
      ensures Valid() && items == old(items)[..k] + old(items)[k + 1..]
      ensures holder.next == next && holder.prev == prev
    {
      hide IsRing;
      MemberOnce(k);
      assert holder in Ring();
      Remove(holder, k);
      holder.next := next;
      holder.prev := prev;
    }

    /** pvlist_remove_init: the removed holder ends up alone on its own ring. */
    method RemoveInit(holder: Holder, ghost k: nat)
      requires Valid() && k < |items| && items[k] == holder
      modifies this, Members()`next, Members()`prev
      ensures Valid() && items == old(items)[..k] + old(items)[k + 1..]
      ensures IsRing([holder, holder])
    {
      RemoveAndReuse(holder, holder, holder, k);
      LoneRing(holder);
    }

    lemma MemberOnce(k: nat)
      requires Valid() && k < |items|
      ensures items[k] !in [head] + (items[..k] + items[k + 1..]) + [head]
    {
      var c := Ring();
      assert c[k + 1] == items[k];
      assert forall i | 0 <= i < |items| && i != k :: items[i] == c[i + 1] != items[k];
    }

    /** pvlist_for_each. */
    method ForEach() returns (visited: seq<Holder>)
      requires Valid()
      ensures visited == items
    {
      visited := [];
      ghost var c := Ring();
      assert Linked(c[0], c[1]);
      var pos := head.next;
      while pos != head
        invariant |visited| <= |items| && visited == items[..|visited|]
        invariant pos == c[|visited| + 1]
        decreases |items| - |visited|
      {
        assert Linked(c[|visited| + 1], c[|visited| + 2]);
        visited := visited + [pos];
        pos := pos.next;
      }
      assert c[|visited| + 1] == head;
    }

    /** pvlist_for_each_reverse. */
    method ForEachReverse() returns (visited: seq<Holder>)
      requires Valid()
      ensures |visited| == |items|
      ensures forall i | 0 <= i < |items| :: visited[i] == items[|items| - 1 - i]
    {
      visited := [];
      ghost var c, n := Ring(), |items|;
      assert Linked(c[n], c[n + 1]);
      var pos := head.prev;
      while pos != head
        invariant |visited| <= n
        invariant forall i | 0 <= i < |visited| :: visited[i] == items[n - 1 - i]
        invariant pos == c[n - |visited|]
        decreases n - |visited|
      {
        assert Linked(c[n - |visited| - 1], c[n - |visited|]);
        visited := visited + [pos];
        pos := pos.prev;
      }
      assert c[n - |visited|] == head;
    }

    /** pvlist_for_each_safe around a body that removes the doomed members as it meets them and
        then stores whatever it likes in their two pointers. */
    method ForEachSafe(doomed: map<Holder, (Holder, Holder)>) returns (visited: seq<Holder>)
      requires Valid()
      modifies this, Members()`next, Members()`prev
      ensures Valid() && visited == old(items) && items == Kept(old(items), doomed.Keys)
    {
      hide *;
      visited := [];
      ghost var all, k, members, stops := items, 0, Members(), items + [head];
      KeptNone(all, doomed.Keys);
      FirstInRing();
      var pos := head.next;
      var tmp := pos.next;
      while pos != head
        invariant Valid() && k <= |all| && visited == all[..k]
        invariant items == Kept(all[..k], doomed.Keys) + all[k..]
        invariant pos == stops[k] && tmp == pos.next
        decreases |all| - k
      {
        assert k < |all|;
        NextStop(all, doomed.Keys, k);
        TakeNext(all, k);
        visited := visited + [pos];
        DropIfDoomed(pos, doomed, all, k, members);
        k := k + 1;
        pos := tmp;
        tmp := pos.next;
      }
      AtEnd(all, k, head);
    }

    /** The loop body: drops the k-th visited member if it is doomed. */
    method DropIfDoomed(pos: Holder, doomed: map<Holder, (Holder, Holder)>, ghost all: seq<Holder>, ghost k: nat,
                        ghost members: set<Holder>)
      requires Valid() && k < |all| && pos == all[k]
      requires items == Kept(all[..k], doomed.Keys) + all[k..]
      requires forall h | h == head || h in all :: h in members
      modifies this, members`next, members`prev
      ensures Valid() && items == Kept(all[..k + 1], doomed.Keys) + all[k + 1..]
    {
      hide *;
      KeptNext(all, doomed.Keys, k, items, head);
      if pos in doomed {
        KeptSubset(all, doomed.Keys, k);
        SameMembers(all, members);
        RemoveAndReuse(pos, doomed[pos].0, doomed[pos].1, |Kept(all[..k], doomed.Keys)|);
      }
    }

    lemma NextStop(all: seq<Holder>, doomed: set<Holder>, k: nat)
      requires Valid() && k < |all| && items == Kept(all[..k], doomed) + all[k..]
      ensures all[k].next == (all + [head])[k + 1]
    {
      hide *;
      KeptNext(all, doomed, k, items, head);
      NextInRing(|Kept(all[..k], doomed)|);
    }

    lemma SameMembers(all: seq<Holder>, members: set<Holder>)
      requires forall h | h in items :: h in all
      requires forall h | h == head || h in all :: h in members
      ensures Members() <= members
    {}

    lemma MembersAre()
      ensures Members() == {head} + set h | h in items
      ensures forall h :: h in Ring() <==> h in Members()
    {}

    lemma MembersShrink(before: seq<Holder>, members: set<Holder>)
      requires members == {head} + (set h | h in before)
      requires forall h | h in items :: h in before
      ensures Members() <= members
    {}

    lemma FirstInRing()
      requires Valid()
      ensures head.next == (items + [head])[0] && head !in items
      ensures forall h | h == head || h in items :: h in Members()
    {
      var c := Ring();
      assert Linked(c[0], c[1]);
      assert forall i | 0 <= i < |items| :: items[i] == c[i + 1] != c[0];
      assert head in c && forall h | h in items :: h in c;
    }

    lemma Ends()
      requires Valid() && items != []
      ensures head.next == items[0] && head.prev == items[|items| - 1]
    {
      var c := Ring();
      assert Linked(c[0], c[1]) && Linked(c[|items|], c[|items| + 1]);
    }

    lemma PrevInRing(k: nat)
      requires Valid() && k < |items|
      ensures items[k].prev == if k > 0 then items[k - 1] else head
    {
      assert Linked(Ring()[k], Ring()[k + 1]);
    }

    lemma NextInRing(k: nat)
      requires Valid() && k < |items|
      ensures items[k].next == if k + 1 < |items| then items[k + 1] else head
    {
      assert Linked(Ring()[k + 1], Ring()[k + 2]);
    }
  }

  /** The holders of s that are not doomed, in order. */
  function Kept(s: seq<Holder>, doomed: set<Holder>): seq<Holder> {
    if s == [] then []
    else Kept(s[..|s| - 1], doomed) + if s[|s| - 1] in doomed then [] else [s[|s| - 1]]
  }

  /** What is kept of a list is what is kept of its parts, in order; a single holder is kept
      unless it is doomed. */
  lemma {:induction false} KeptInOrder(a: seq<Holder>, b: seq<Holder>, doomed: set<Holder>)
    ensures Kept(a + b, doomed) == Kept(a, doomed) + Kept(b, doomed)
    ensures |a| == 1 ==> Kept(a, doomed) == if a[0] in doomed then [] else a
    decreases |b|
  {
    if b == [] {
      assert a + b == a;
    } else {
      var n := |b| - 1;
      assert (a + b)[..|a + b| - 1] == a + b[..n];
      KeptInOrder(a, b[..n], doomed);
    }
  }

  lemma KeptNone(s: seq<Holder>, doomed: set<Holder>)
    ensures Kept(s[..0], doomed) + s[0..] == s
  {}

  lemma {:induction false} KeptWithin(s: seq<Holder>, doomed: set<Holder>)
    ensures forall h | h in Kept(s, doomed) :: h in s
  {
    if s != [] { KeptWithin(s[..|s| - 1], doomed); }
  }

  lemma KeptSubset(s: seq<Holder>, doomed: set<Holder>, k: nat)
    requires k <= |s|
    ensures forall h | h in Kept(s[..k], doomed) + s[k..] :: h in s
  {
    KeptWithin(s[..k], doomed);
  }

  lemma KeptNext(s: seq<Holder>, doomed: set<Holder>, k: nat, items: seq<Holder>, end: Holder)
    requires k < |s| && items == Kept(s[..k], doomed) + s[k..]
    ensures
      var done := |Kept(s[..k], doomed)|;
      && done < |items| && items[done] == s[k]
      && (if done + 1 < |items| then items[done + 1] else end) == (s + [end])[k + 1]
      && Kept(s[..k + 1], doomed) + s[k + 1..] == if s[k] in doomed then items[..done] + items[done + 1..] else items
  {
    assert s[..k + 1][..k] == s[..k];
  }

  lemma AtEnd(s: seq<Holder>, k: nat, end: Holder)
    requires k <= |s| && end !in s && (s + [end])[k] == end
    ensures k == |s| && s[..k] == s && s[k..] == []
  {}

  lemma TakeNext(s: seq<Holder>, k: nat)
    requires k < |s|
    ensures s[..k + 1] == s[..k] + [s[k]]
  {}

  /** pvlist_remove of a holder that is linked on list home, or on none. */
  method RemoveFrom(holder: Holder, ghost home: PvList?, ghost k: nat)
    requires home == null ==> IsRing([holder, holder])
    requires home != null ==> home.Valid() && k < |home.items| && home.items[k] == holder
    modifies if home == null then {} else {home}
    modifies (if home == null then {holder} else home.Members())`next
    modifies (if home == null then {holder} else home.Members())`prev
    ensures home == null ==> IsRing([holder, holder])
    ensures home != null ==>
      && home.Valid() && holder !in home.Ring()
      && home.items == old(home.items)[..k] + old(home.items)[k + 1..]
  {
    hide IsRing;
    ghost var ring, at: nat := [holder, holder], 0;
    if home != null {
      home.MemberOnce(k);
      ring, at := home.Ring(), k + 1;
      assert ring[..at] + ring[at + 1..] == [home.head] + (home.items[..k] + home.items[k + 1..]) + [home.head];
    }
    Detach(holder, ring, at);
    if home != null { home.items := home.items[..k] + home.items[k + 1..]; }
  }

  lemma LoneRing(h: Holder)
    requires h.next == h == h.prev
    ensures IsRing([h, h])
  {}

  lemma RingTour(c: seq<Holder>)
    requires IsRing(c)
    ensures Tour(c)
  {}

  lemma Broken(h: Holder, c: seq<Holder>)
    requires c == [h, h] && h.prev != h
    ensures !IsRing(c)
  {}

  /** Consecutive holders of s are linked to each other. */
  ghost predicate Chain(s: seq<Holder>)
    reads s`next, s`prev
  {
    forall i | 0 <= i < |s| - 1 :: Linked(s[i], s[i + 1])
  }

  /** What pvlist_join moves: the members of the source, or its head if it has none. */
  ghost function Moved(theirs: seq<Holder>): (moved: seq<Holder>)
    requires Tour(theirs)
    ensures moved != []
  {
    if |theirs| == 2 then [theirs[0]] else theirs[1..|theirs| - 1]
  }

  /** The pointer updates of pvlist_join. */
  method Relink(headSrc: Holder, tailSrc: Holder, headDst: Holder, ghost mine: seq<Holder>, ghost theirs: seq<Holder>)
    requires IsRing(mine) && IsRing(theirs)
    requires forall h | h in mine :: h !in theirs
    requires headDst == mine[0] && headSrc == theirs[0].next && tailSrc == theirs[0].prev
    modifies mine`next, mine`prev, theirs`next, theirs`prev
    ensures IsRing([mine[0]] + Moved(theirs) + mine[1..])
    ensures if |theirs| == 2 then theirs[0].prev == headDst else IsRing([theirs[0], theirs[0]])
  {
    ghost var moved := Moved(theirs);
    MovedApart(theirs);
    JoinedTour(mine, theirs, moved);
    assert theirs[0] in theirs;
    Unhook(headSrc, tailSrc, theirs);
    forall i | 0 <= i < |mine| - 1 ensures Linked(mine[i], mine[i + 1]) {
      assert mine[i] in mine && mine[i + 1] in mine;
      assert old(Linked(mine[i], mine[i + 1]));
    }
    ghost var lone := [theirs[0], theirs[0]];
    assert Linked(lone[0], lone[1]);
    Hook(headSrc, tailSrc, headDst, mine, moved);
    assert |theirs| > 2 ==> Linked(theirs[0], theirs[0]);
  }

  /** First half: the source head is left alone, its former members stay a chain. */
  method Unhook(headSrc: Holder, tailSrc: Holder, ghost theirs: seq<Holder>)
    requires IsRing(theirs) && headSrc == theirs[0].next && tailSrc == theirs[0].prev
    modifies theirs`next, theirs`prev
    ensures IsRing([theirs[0], theirs[0]]) && Chain(Moved(theirs))
    ensures Moved(theirs)[0] == headSrc && Moved(theirs)[|Moved(theirs)| - 1] == tailSrc
  {
    ghost var n, moved := |theirs|, Moved(theirs);
    assert Linked(theirs[0], theirs[1]) && Linked(theirs[n - 2], theirs[n - 1]);
    headSrc.prev.next := tailSrc.next;
    tailSrc.next.prev := headSrc.prev;
    forall i | 0 <= i < |moved| - 1 ensures Linked(moved[i], moved[i + 1]) {
      assert old(Linked(theirs[i + 1], theirs[i + 2]));
    }
  }

  /** Second half: the chain is put right behind the destination's head. */
  method Hook(headSrc: Holder, tailSrc: Holder, headDst: Holder, ghost mine: seq<Holder>, ghost moved: seq<Holder>)
    requires IsRing(mine) && headDst == mine[0]
    requires Chain(moved) && moved != [] && headSrc == moved[0] && tailSrc == moved[|moved| - 1]
    requires Tour([mine[0]] + moved + mine[1..]) && forall h | h in mine :: h !in moved
    modifies mine`next, mine`prev, moved`next, moved`prev
    ensures IsRing([mine[0]] + moved + mine[1..])
    ensures moved[0].prev == headDst
  {
    ghost var d := [mine[0]] + moved + mine[1..];
    assert Linked(mine[0], mine[1]);
    assert d[1] == headSrc && d[|moved|] == tailSrc && d[|moved| + 1] == mine[1];
    headSrc.prev := headDst;
    tailSrc.next := headDst.next;
    headDst.next.prev := tailSrc;
    headDst.next := headSrc;
    forall i | 0 <= i < |d| - 1 ensures Linked(d[i], d[i + 1]) {
      if 1 <= i < |moved| {
        assert old(Linked(moved[i - 1], moved[i]));
      } else if i > |moved| {
        assert old(Linked(mine[i - |moved|], mine[i - |moved| + 1]));
      }
    }
  }

  lemma MovedApart(theirs: seq<Holder>)
    requires Tour(theirs)
    ensures forall h | h in Moved(theirs) :: h in theirs
    ensures |theirs| > 2 ==> theirs[0] !in Moved(theirs)
  {}

  lemma JoinedTour(mine: seq<Holder>, theirs: seq<Holder>, moved: seq<Holder>)
    requires Tour(mine) && Tour(theirs) && moved == Moved(theirs)
    requires forall h | h in mine :: h !in theirs
    ensures Tour([mine[0]] + moved + mine[1..])
    ensures forall h | h in mine :: h !in moved
  {
    assert forall h | h in moved :: h in theirs;
    var d := [mine[0]] + moved + mine[1..];
    forall i, j | 0 <= i < j < |d| && !(i == 0 && j == |d| - 1) ensures d[i] != d[j] {
      if 1 <= i <= |moved| < j {
        assert d[i] in moved && d[j] in mine;
      } else if i == 0 && j <= |moved| {
        assert d[j] in moved && d[0] in mine;
      }
    }
  }
}
