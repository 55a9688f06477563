/** The singly linked list of options. */
module CoapOption {
  import opened OptionOrder

  /** A node. `live` is ghost: allocated and not yet destroyed. */
  class Option {
    const no: U16
    const val: OptVal
    var next: Option?
    ghost var live: bool

    /** Option::Allocate: the node owns a copy of the value. */
    constructor (no: U16, val: OptVal)
      ensures this.no == no && this.val == val && next == null && live
    {
      this.no, this.val := no, val;
      next := null;
      live := true;
    }

    /** Option::Destroy: only a live node may be destroyed. */
    method Destroy()
      requires live
      modifies this
      ensures !live && next == null
    {
      next := null;
      live := false;
    }

    ghost function Get(): (o: Opt) { Opt(no, val) }
  }

  class OptionList {
    var first: Option?
    var last: Option?
    ghost var nodes: seq<Option>

    /** The pointers spell out the sequence `nodes`, each node once and live. */
    ghost predicate Valid()
      reads this, nodes
    {
      && (if nodes == [] then first == null && last == null
          else first == nodes[0] && last == nodes[|nodes| - 1])
      && (forall i :: 0 <= i < |nodes| ==> nodes[i].live)
      && (forall i :: 0 <= i < |nodes| ==> nodes[i].next == Following(nodes, i))
      && Distinct(nodes)
    }

    /** The options in list order. */
    ghost function Contents(): (s: seq<Opt>)
      reads this
      ensures |s| == |nodes|
    {
      Values(nodes)
    }

    constructor ()
      ensures Valid() && nodes == []
    {
      first, last, nodes := null, null, [];
    }

    predicate IsEmpty()
      reads this
    {
      first == null && last == null
    }

    method InsertFront(option: Option)
      requires Valid() && option.live && option.next == null && option !in nodes
      modifies this, option
      ensures Valid() && nodes == [option] + old(nodes) && option.live
    {
      if IsEmpty() {
        first := option;
        last := option;
      } else {
        option.next := first;
        first := option;
      }
      nodes := [option] + nodes;
    }

    method InsertEnd(option: Option)
      requires Valid() && option.live && option.next == null && option !in nodes
      modifies this, nodes, option
      ensures Valid() && nodes == old(nodes) + [option] && option.live
    {
      if IsEmpty() {
        first := option;
        last := option;
      } else {
        last.next := option;
        last := option;
      }
      nodes := nodes + [option];
    }

    /** Insert: in any list the option goes where numbers stop being at most its own, and in a
        list in order that is behind every option with a number that is not larger. */
    method Insert(option: Option)
      requires Valid() && option.live && option.next == null && option !in nodes
      modifies this, nodes, option
      ensures Valid() && option.live
      ensures Sorted(old(Contents())) ==> Contents() == StableInsert(old(Contents()), option.Get())
      ensures exists k | 0 <= k <= |old(nodes)| ::
          nodes == old(nodes)[..k] + [option] + old(nodes)[k..] && Gap(old(Contents()), option.no, k)
    {
      hide Following, Distinct, StableInsert;
      ghost var s, was := Contents(), nodes;
      ghost var k := 0;
      if IsEmpty() {
        InsertFront(option);
      } else if option.no < first.no {
        InsertFront(option);
      } else if option.no >= last.no {
        k := |s|;
        InsertEnd(option);
      } else {
        var temp, j := FindPlace(option);
        k := j + 1;
        LinkBetween(temp, option, j);
      }
      PlacedAt(was, option, k, s);
      if Sorted(s) { InsertAtGap(s, option.Get(), k); }
    }

    /** The search loop of Insert: it always stops at a node that the new one belongs behind. */
    method FindPlace(option: Option) returns (temp: Option, ghost k: nat)
      requires Valid() && nodes != []
      requires first.no <= option.no < last.no
      ensures k + 1 < |nodes| && temp == nodes[k]
      ensures Gap(Contents(), option.no, k + 1)
    {
      temp := first;
      k := 0;
      while temp != last
        invariant 0 <= k < |nodes| && temp == nodes[k] && temp.no <= option.no
        decreases |nodes| - k
      {
        if option.no < temp.next.no && option.no >= temp.no {
          return;
        }
        temp := temp.next;
        k := k + 1;
      }
      assert false;
    }

    /** temp -> option -> temp's old successor. */
    method LinkBetween(temp: Option, option: Option, ghost k: nat)
      requires Valid() && option.live && option !in nodes
      requires k + 1 < |nodes| && temp == nodes[k]
      modifies this, temp, option
      ensures Valid() && option.live
      ensures nodes == old(nodes)[..k + 1] + [option] + old(nodes)[k + 1..]
    {
      hide Following, Distinct;
      ghost var was, t := nodes, nodes[..k + 1] + [option] + nodes[k + 1..];
      OthersThan(was, k);
      forall i | 0 <= i < |t| ensures SplicedAt(was, t, option, k, i) { FollowingSpliced(was, t, option, k, i); }
      FollowingSpliced(was, t, option, k, 0);
      var next := temp.next;
      temp.next := option;
      option.next := next;
      nodes := t;
      forall i | 0 <= i < |t| ensures t[i].live && t[i].next == Following(t, i) {
        assert SplicedAt(was, t, option, k, i);
      }
    }

    /** FreeList: every node is destroyed exactly once, and none after that is touched. */
    method FreeList()
      requires Valid()
      modifies this, nodes
      ensures Valid() && nodes == []
      ensures forall n :: n in old(nodes) ==> !n.live
    {
      if !IsEmpty() {
        ghost var all := nodes;
        ghost var k := 1;
        var temp := first.next;
        while temp != null
          invariant first == all[0] && all[0].live && 1 <= k <= |all|
          invariant temp == first.next == if k < |all| then all[k] else null
          invariant forall i :: k <= i < |all| ==> all[i].live && all[i].next == Following(all, i)
          invariant forall i :: 1 <= i < k ==> !all[i].live
          decreases |all| - k
        {
          first.next := first.next.next;
          temp.Destroy();
          temp := first.next;
          k := k + 1;
        }
        first.Destroy();
        first := null;
        last := null;
        nodes := [];
      }
    }

    /** The number of nodes, in 16 bits. */
    method Size() returns (count: U16)
      requires Valid()
      ensures count == |nodes| % 65536
    {
      if IsEmpty() { return 0; }
      count := 0;
      ghost var k := 0;
      var it := first;
      while it != null
        invariant 0 <= k <= |nodes| && count == k % 65536
        invariant it == if k < |nodes| then nodes[k] else null
        decreases |nodes| - k
      {
        count := (count + 1) % 65536;
        it := it.next;
        k := k + 1;
      }
    }
  }

  ghost predicate Distinct(nodes: seq<Option>)
  {
    forall i, j :: 0 <= i < j < |nodes| ==> nodes[i] != nodes[j]
  }

  ghost function Following(nodes: seq<Option>, i: nat): (n: Option?)
    requires i < |nodes|
  {
    if i + 1 < |nodes| then nodes[i + 1] else null
  }

  ghost function Values(nodes: seq<Option>): (s: seq<Opt>)
    ensures |s| == |nodes|
    ensures forall i :: 0 <= i < |s| ==> s[i] == nodes[i].Get()
  {
    seq(|nodes|, i requires 0 <= i < |nodes| => nodes[i].Get())
  }

  lemma OthersThan(nodes: seq<Option>, k: nat)
    requires k < |nodes| && Distinct(nodes)
    ensures forall i :: 0 <= i < |nodes| && i != k ==> nodes[i] != nodes[k]
  {}

  /** Node i and its successor after option was put in behind node k. */
  ghost predicate SplicedAt(nodes: seq<Option>, t: seq<Option>, option: Option, k: nat, i: nat)
  {
    && i < |t| == |nodes| + 1 && k + 1 < |nodes|
    && t[i] == (if i <= k then nodes[i] else if i == k + 1 then option else nodes[i - 1])
    && Following(t, i) == if i < k then Following(nodes, i) else if i == k then option
                          else Following(nodes, i - 1)
  }

  lemma FollowingSpliced(nodes: seq<Option>, t: seq<Option>, option: Option, k: nat, i: nat)
    requires k + 1 < |nodes| && i <= |nodes| && t == nodes[..k + 1] + [option] + nodes[k + 1..]
    ensures SplicedAt(nodes, t, option, k, i)
    ensures option !in nodes && Distinct(nodes) ==> Distinct(t)
  {}

  lemma PlacedAt(nodes: seq<Option>, option: Option, k: nat, s: seq<Opt>)
    requires k <= |nodes| && s == Values(nodes)
    ensures Values(nodes[..k] + [option] + nodes[k..]) == s[..k] + [option.Get()] + s[k..]
    ensures nodes[..0] + [option] + nodes[0..] == [option] + nodes
    ensures nodes[..|nodes|] + [option] + nodes[|nodes|..] == nodes + [option]
  {}
}
