/** The counted lists of lstLib.h, on top of the circular lists. */
module LstLib {
  import opened PrivateList

  lemma Uncons(a: seq<Holder>, rest: seq<Holder>)
    ensures if rest == [] then a + rest == a else a + rest == a + [rest[0]] + rest[1..]
  {}

  class LstList {
    const list: PvList
    var count: int

    ghost function Nodes(): seq<Holder>
      reads list
    {
      list.items
    }

    /** The count is the length, and every member's back pointer names this list. */
    ghost predicate Valid()
      reads this, list, list.Members()
    {
      && list.Valid()
      && count == |Nodes()|
      && forall n | n in Nodes() :: n.list == this
    }

    /** lstInit. */
    constructor ()
      ensures Valid() && Nodes() == [] && fresh(list) && fresh(list.head)
    {
      list := new PvList();
      count := 0;
    }

    /** lstAdd. */
    method Add(n: Holder)
      requires Valid() && n !in list.Ring()
      modifies this, list, n, list.Members()`next, list.Members()`prev
      ensures Valid() && Nodes() == old(Nodes()) + [n]
    {
      n.next, n.prev := n, n;
      list.Append(n);
      n.list := this;
      count := count + 1;
    }
  
    /** lstCount. */
    method Count() returns (c: int)
      requires Valid()
      ensures c == |Nodes()|
    {
      c := count;
    }

    /** lstDelete. The node leaves the list it is linked on, its back pointer is cleared, and
        this list's count drops. That is right when it is linked here; a node linked on another
        list leaves that one miscounted, and an unlinked (initialised) node leaves this one so. */
    method Delete(n: Holder, ghost home: LstList?, ghost k: nat)
      requires home == null ==> IsRing([n, n])
      requires home != null ==> home.Valid() && k < |home.Nodes()| && home.Nodes()[k] == n
      modifies `count, n, if home == null then {} else {home.list} + home.list.Members()
      ensures n.list == null && count == old(count) - 1
      ensures home == null ==> IsRing([n, n])
      ensures home != null ==>
        && home.list.Valid() && n !in home.list.Ring()
        && home.Nodes() == old(home.Nodes())[..k] + old(home.Nodes())[k + 1..]
      ensures home == this ==> Valid()
      ensures home != null && home != this ==> home.count == |home.Nodes()| + 1
    {
      hide IsRing;
      RemoveFrom(n, if home == null then null else home.list, k);
      n.list := null;
      count := count - 1;
    }

    /** lstFirst; NULL for a missing or empty list. */
    static method First(l: LstList?) returns (n: Holder?)
      requires l != null ==> l.Valid()
      ensures n == if l == null || l.Nodes() == [] then null else l.Nodes()[0]
    {
      if l == null { return null; }
      var empty := l.list.IsEmpty();
      if empty { return null; }
      l.list.Ends();
      n := l.list.head.next;
    }

    /** lstLast. */
    static method Last(l: LstList?) returns (n: Holder?)
      requires l != null ==> l.Valid()
      ensures n == if l == null || l.Nodes() == [] then null else l.Nodes()[|l.Nodes()| - 1]
    {
      if l == null { return null; }
      var empty := l.list.IsEmpty();
      if empty { return null; }
      l.list.Ends();
      n := l.list.head.prev;
    }

    /** lstGet: takes the first node off the list. */
    static method Get(l: LstList?) returns (n: Holder?)
      requires l != null ==> l.Valid()
      modifies if l == null then {} else {l, l.list} + l.list.Members()
      ensures l != null ==> l.Valid()
      ensures l == null || old(l.Nodes()) == [] ==> n == null && (l != null ==> l.Nodes() == [])
      ensures l != null && old(l.Nodes()) != [] ==>
        n == old(l.Nodes())[0] && l.Nodes() == old(l.Nodes())[1..] && n.list == null && n !in l.list.Ring()
    {
      if l == null { return null; }
      var empty := l.list.IsEmpty();
      if empty { return null; }
      l.list.MemberOnce(0);
      n := l.list.Pop();
      n.list := null;
      l.count := l.count - 1;
    }

    /** lstInsert: after nprev, or at the front when nprev is NULL. */
    method Insert(nprev: Holder?, n: Holder, ghost k: nat)
      requires Valid() && n !in list.Ring()
      requires nprev != null ==> k < |Nodes()| && Nodes()[k] == nprev
      modifies this, list, n, list.Members()`next, list.Members()`prev
      ensures Valid()
      ensures Nodes() == if nprev == null then [n] + old(Nodes())
                         else old(Nodes())[..k + 1] + [n] + old(Nodes())[k + 1..]
    {
      n.next, n.prev := n, n;
      if nprev == null {
        list.Prepend(n);
      } else {
        list.Insert(n, nprev, k);
      }
      n.list := this;
      count := count + 1;
    }

    /** n is on no list, or is the k-th node of the list it names. */
    static ghost predicate Placed(n: Holder, k: nat)
      reads n, n.list, (if n.list is LstList then {(n.list as LstList).list} else {}),
            (if n.list is LstList then (n.list as LstList).list.Members() else {})
    {
      n.list != null ==>
        && n.list is LstList
        && var l := n.list as LstList;
        && l.Valid() && k < |l.Nodes()| && l.Nodes()[k] == n
    }

    /** lstNext: the following node of the list n is on; NULL at its end or on no list. */
    static method Next(n: Holder, ghost k: nat) returns (m: Holder?)
      requires Placed(n, k)
      ensures n.list == null ==> m == null
      ensures n.list != null ==>
        var nodes := (n.list as LstList).Nodes();
        m == if k + 1 < |nodes| then nodes[k + 1] else null
    {
      if n.list == null { return null; }
      var l := n.list as LstList;
      l.list.Ends();
      l.list.MemberOnce(k);
      l.list.NextInRing(k);
      if n == l.list.head.prev { return null; }
      m := n.next;
    }

    /** lstPrevious, its mirror image. */
    static method Previous(n: Holder, ghost k: nat) returns (m: Holder?)
      requires Placed(n, k)
      ensures n.list == null ==> m == null
      ensures n.list != null ==> m == if k > 0 then (n.list as LstList).Nodes()[k - 1] else null
    {
      if n.list == null { return null; }
      var l := n.list as LstList;
      l.list.Ends();
      l.list.MemberOnce(k);
      l.list.PrevInRing(k);
      if n == l.list.head.next { return null; }
      m := n.prev;
    }

    /** Following lstNext from lstFirst visits every node once, in order, and then stops. */
    static method Walk(l: LstList) returns (visited: seq<Holder>)
      requires l.Valid()
      ensures visited == l.Nodes()
    {
      visited := [];
      var n := First(l);
      while n != null
        invariant |visited| <= |l.Nodes()| && visited == l.Nodes()[..|visited|]
        invariant n == if |visited| < |l.Nodes()| then l.Nodes()[|visited|] else null
        decreases |l.Nodes()| - |visited|
      {
        assert n in l.Nodes();
        var next := Next(n, |visited|);
        visited := visited + [n];
        n := next;
      }
    }

    /** Repeated lstAdd. */
    method Fill(ns: seq<Holder>)
      requires Valid()
      requires forall i, j | 0 <= i < j < |ns| :: ns[i] != ns[j]
      requires forall n | n in ns :: n !in list.Members()
      modifies this, list, ns, list.Members()
      ensures Valid() && Nodes() == old(Nodes()) + ns
      ensures list.Members() == old(list.Members()) + set n | n in ns
    {
      ghost var pool := list.Members();
      for i := 0 to |ns|
        invariant Valid() && Nodes() == old(Nodes()) + ns[..i]
        invariant list.Members() == pool + set n | n in ns[..i]
      {
        list.MembersAre();
        assert ns[i] !in ns[..i] && ns[i] in ns;
        Add(ns[i]);
        list.MembersAre();
        assert ns[..i + 1] == ns[..i] + [ns[i]];
      }
      assert ns[..|ns|] == ns;
    }

    /** Repeated lstGet, until it answers NULL. */
    method Drain() returns (got: seq<Holder>)
      requires Valid()
      modifies this, list, list.Members()
      ensures Valid() && Nodes() == [] && count == 0 && got == old(Nodes())
    {
      hide *;
      ghost var all, pool := list.items, list.Members();
      NodesAre();
      got := [];
      var n := Get(this);
      NodesAre();
      list.MembersShrink(all, pool);
      Uncons([], all);
      while n != null
        invariant Valid() && Nodes() == list.items && list.Members() <= pool
        invariant all == if n == null then got else got + [n] + Nodes()
        invariant n == null ==> Nodes() == []
        decreases |all| - |got|
      {
        got := got + [n];
        ghost var rest, members := list.items, list.Members();
        list.MembersAre();
        n := Get(this);
        NodesAre();
        list.MembersShrink(rest, members);
        Uncons(got, rest);
      }
      NodesAre();
    }

    lemma NodesAre()
      requires Valid()
      ensures Nodes() == list.items && count == |list.items|
      ensures list.Members() == {list.head} + set h | h in list.items
    {}

    /** Nodes come out of lstGet in the order in which lstAdd put them in. */
    method FillAndDrain(ns: seq<Holder>) returns (got: seq<Holder>)
      requires Valid()
      requires forall i, j | 0 <= i < j < |ns| :: ns[i] != ns[j]
      requires forall n | n in ns :: n !in list.Members()
      modifies this, list, ns, list.Members()
      ensures Valid() && Nodes() == [] && got == old(Nodes()) + ns
    {
      Fill(ns);
      got := Drain();
    }
  }
}
