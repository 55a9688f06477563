/** CoAP options as values, and what it means to keep them in a stable order. */
module OptionOrder {

  type Byte = x: int | 0 <= x < 256
  type U16 = x: int | 0 <= x < 65536

  /** A value's length is a 16-bit field. */
  type OptVal = s: seq<Byte> | |s| < 65536

  /** One option: its number and its value. */
  datatype Opt = Opt(no: U16, val: OptVal)

  predicate Sorted(s: seq<Opt>)
  {
    forall i, j :: 0 <= i < j < |s| ==> s[i].no <= s[j].no
  }

  /** o goes behind every option whose number is not larger. */
  function StableInsert(s: seq<Opt>, o: Opt): (r: seq<Opt>)
    ensures |r| == |s| + 1
  {
    if s == [] || o.no < s[0].no then [o] + s else [s[0]] + StableInsert(s[1..], o)
  }

  /** The list after adding the options of `added` one by one. */
  function InsertAll(s: seq<Opt>, added: seq<Opt>): (r: seq<Opt>)
  {
    if added == [] then s else StableInsert(InsertAll(s, added[..|added| - 1]), added[|added| - 1])
  }

  /** The options numbered n, in the order they stand. */
  function Numbered(s: seq<Opt>, n: U16): (r: seq<Opt>)
    ensures forall x :: x in r <==> x in s && x.no == n
  {
    if s == [] then []
    else if s[0].no == n then [s[0]] + Numbered(s[1..], n)
    else Numbered(s[1..], n)
  }

  /** b is a stable sort of a: in order, and for each number the same options in the same order. */
  ghost predicate StableSortOf(b: seq<Opt>, a: seq<Opt>)
  {
    Sorted(b) && forall n: U16 :: Numbered(b, n) == Numbered(a, n)
  }

  /** Where the new option goes: everything before it is not larger, everything after is larger. */
  lemma {:induction false} InsertAt(s: seq<Opt>, o: Opt, k: nat)
    requires k <= |s|
    requires forall i :: 0 <= i < k ==> s[i].no <= o.no
    requires k < |s| ==> o.no < s[k].no
    ensures StableInsert(s, o) == s[..k] + [o] + s[k..]
  {
    if k > 0 {
      InsertAt(s[1..], o, k - 1);
      assert s == [s[0]] + s[1..];
      assert s[..k] == [s[0]] + s[1..][..k - 1] && s[k..] == s[1..][k - 1..];
    }
  }

  /** Between place k - 1 and place k the numbers step from at most no to above it. */
  predicate Gap(s: seq<Opt>, no: U16, k: nat)
  {
    && k <= |s|
    && (k > 0 ==> s[k - 1].no <= no)
    && (k < |s| ==> no < s[k].no)
  }

  /** A list in order has one gap, where the new option goes. */
  lemma InsertAtGap(s: seq<Opt>, o: Opt, k: nat)
    requires Sorted(s) && Gap(s, o.no, k)
    ensures StableInsert(s, o) == s[..k] + [o] + s[k..]
  {
    forall i | 0 <= i < k ensures s[i].no <= o.no { assert s[i].no <= s[k - 1].no; }
    InsertAt(s, o, k);
  }

  lemma {:induction false} NumberedAppend(a: seq<Opt>, b: seq<Opt>, n: U16)
    ensures Numbered(a + b, n) == Numbered(a, n) + Numbered(b, n)
  {
    hide Numbered;
    NumberedFront(a, n);
    if a == [] {
      assert a + b == b;
    } else {
      assert (a + b)[1..] == a[1..] + b;
      NumberedAppend(a[1..], b, n);
      NumberedFront(a + b, n);
    }
  }

  lemma NumberedFront(s: seq<Opt>, n: U16)
    ensures Numbered(s, n) ==
            if s == [] then [] else (if s[0].no == n then [s[0]] else []) + Numbered(s[1..], n)
  {}

  lemma {:induction false} InsertKeepsOrder(s: seq<Opt>, o: Opt)
    requires Sorted(s)
    ensures Sorted(StableInsert(s, o))
    ensures forall x :: x in StableInsert(s, o) <==> x == o || x in s
  {
    if s == [] || o.no < s[0].no {
    } else {
      InsertKeepsOrder(s[1..], o);
      assert forall x :: x in s <==> x == s[0] || x in s[1..];
      var r := StableInsert(s[1..], o);
      forall i | 0 <= i < |r| ensures s[0].no <= r[i].no { assert r[i] in r; }
    }
  }

  lemma {:induction false} Absent(s: seq<Opt>, n: U16)
    requires forall x :: x in s ==> x.no != n
    ensures Numbered(s, n) == []
  {
    if s != [] { Absent(s[1..], n); }
  }

  lemma {:induction false} InsertIsStable(s: seq<Opt>, o: Opt, n: U16)
    requires Sorted(s)
    ensures Numbered(StableInsert(s, o), n) == Numbered(s + [o], n)
  {
    if s == [] {
      assert s + [o] == [o] + s;
    } else if o.no < s[0].no {
      assert [o] + s == [o] + s;
      NumberedAppend([o], s, n);
      NumberedAppend(s, [o], n);
      if o.no == n {
        forall x | x in s ensures x.no != n { var i :| 0 <= i < |s| && s[i] == x; }
        Absent(s, n);
      }
    } else {
      InsertIsStable(s[1..], o, n);
      assert (s + [o])[1..] == s[1..] + [o];
    }
  }

  /** Adding options one by one, in any order, leaves exactly their stable sort by number. */
  lemma {:induction false} InsertAllStableSorts(s: seq<Opt>, added: seq<Opt>)
    requires Sorted(s)
    ensures StableSortOf(InsertAll(s, added), s + added)
  {
    hide Numbered, Sorted, StableInsert;
    if added == [] {
      assert s + added == s;
    } else {
      var m := |added| - 1;
      var t := InsertAll(s, added[..m]);
      InsertAllStableSorts(s, added[..m]);
      InsertKeepsOrder(t, added[m]);
      assert s + added == (s + added[..m]) + [added[m]];
      forall n: U16 ensures Numbered(InsertAll(s, added), n) == Numbered(s + added, n) {
        InsertIsStable(t, added[m], n);
        NumberedAppend(t, [added[m]], n);
        NumberedAppend(s + added[..m], [added[m]], n);
      }
    }
  }

  lemma NumberedEmpty(n: U16)
    ensures Numbered([], n) == []
  {}

  lemma NumberedHead(s: seq<Opt>, n: U16)
    requires s != []
    ensures s[0].no == n ==> Numbered(s, n) == [s[0]] + Numbered(s[1..], n)
    ensures s[0].no != n ==> Numbered(s, n) == Numbered(s[1..], n)
  {}

  lemma SameHead(a: seq<Opt>, b: seq<Opt>)
    requires a != [] && b != [] && Sorted(a) && Sorted(b)
    requires forall n: U16 :: Numbered(a, n) == Numbered(b, n)
    ensures a[0] == b[0]
  {
    var m, n := a[0].no, b[0].no;
    NumberedHead(a, m);
    NumberedHead(b, n);
    assert a[0] in Numbered(b, m);
    assert b[0] in Numbered(a, n);
  }

  lemma SameTail(a: seq<Opt>, b: seq<Opt>, n: U16)
    requires a != [] && b != [] && a[0] == b[0] && Numbered(a, n) == Numbered(b, n)
    ensures Numbered(a[1..], n) == Numbered(b[1..], n)
  {
    hide Numbered;
    NumberedHead(a, n);
    NumberedHead(b, n);
    if a[0].no == n {
      assert Numbered(a[1..], n) == Numbered(a, n)[1..];
      assert Numbered(b[1..], n) == Numbered(b, n)[1..];
    }
  }

  /** There is only one stable sort. */
  lemma {:induction false} StableSortUnique(a: seq<Opt>, b: seq<Opt>)
    requires Sorted(a) && Sorted(b) && forall n: U16 :: Numbered(a, n) == Numbered(b, n)
    ensures a == b
  {
    hide Numbered;
    if a == [] {
      if b != [] {
        NumberedEmpty(b[0].no);
        NumberedHead(b, b[0].no);
      }
    } else {
      NumberedHead(a, a[0].no);
      NumberedEmpty(a[0].no);
      SameHead(a, b);
      forall n: U16 ensures Numbered(a[1..], n) == Numbered(b[1..], n) {
        SameTail(a, b, n);
      }
      StableSortUnique(a[1..], b[1..]);
      assert a == [a[0]] + a[1..] && b == [b[0]] + b[1..];
    }
  }

  /** A list in order is rebuilt by adding its options from the front. */
  lemma {:induction false} InsertAllSorted(s: seq<Opt>)
    requires Sorted(s)
    ensures InsertAll([], s) == s
  {
    InsertAllStableSorts([], s);
    assert [] + s == s;
    StableSortUnique(InsertAll([], s), s);
  }
}
