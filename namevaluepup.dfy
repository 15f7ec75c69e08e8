/**
  `pup_from_name_value`: one `name=value` pair from a submitted form, applied
  to whichever leaf carries that fully qualified name.

  Names are built exactly as the traversal builds them: an object's fields
  live at `address + objectname + "."`, and a leaf is matched when
  `address + shortname` equals the target.  The new value is the raw text run
  through `atof` (floats), `atoi` (ints and enums) or `unescape_URL` (strings).
  A vector's `length` is an ordinary int leaf, so a request can resize a
  vector; a negative length throws std::length_error from `resize`, which
  the model records as `aborted`, after which nothing further changes.
 */
module NameValuePup {
  import opened Ints
  import opened WebStrings
  import opened FieldTree

  /**
    The pair being applied.  `asFloat` is what `atof` makes of `text`: the
    model does not compute with floats, so the caller supplies it.
   */
  datatype Request = Request(target: Str, text: Str, asFloat: Float32)

  /** The visitor's `found` flag, and whether a thrown exception is unwinding the traversal. */
  datatype State = State(found: bool, aborted: bool)

  /** The value a matching leaf is given. */
  function Decode(q: Request, b: Body): (r: Body)
    requires IsLeaf(b)
    ensures IsLeaf(r) && Erase(r) == Erase(b)
  {
    match b
    case FloatBody(_) => FloatBody(q.asFloat)
    case IntBody(_) => IntBody(Atoi(q.text))
    case StrBody(_) => StrBody(Unescaped(q.text))
    case EnumBody(_, options) => EnumBody(ToUnsigned(Atoi(q.text)), options)
  }

  /** Visiting the value b named `name` at `address`: its new value and the visitor's new state. */
  function ApplyBody(q: Request, address: Str, name: Str, b: Body, st: State): (r: (Body, State))
    decreases b, 2, 0
  {
    if st.aborted then (b, st)
    else
      match b
      case ObjBody(items) =>
        var (x, st') := ApplyItems(q, Enter(address, name), items, st);
        (ObjBody(x), st')
      case VecBody(_, _) => ApplyVec(q, address, name, b, st)
      case _ =>
        if address + name == q.target then (Decode(q, b), State(true, false)) else (b, st)
  }

  /** The vector pup: its `length` leaf, the resize, then every element of the resized vector. */
  function ApplyVec(q: Request, address: Str, name: Str, v: Body, st: State): (r: (Body, State))
    requires v.VecBody? && !st.aborted
    decreases v, 1, 0
  {
    var inner := Enter(address, name);
    var (len, st1) :=
      if inner + "length" == q.target then (Atoi(q.text), State(true, false))
      else (VisitedLength(v.elems), st);
    if len < 0 then (v, State(st1.found, true))
    else
      var (x, st') := ApplyElems(q, inner, v, len, 0, st1);
      (VecBody(x, v.blank), st')
  }

  function ApplyItems(q: Request, address: Str, items: seq<Item>, st: State): (r: (seq<Item>, State))
    ensures |r.0| == |items|
    decreases items, 1, 0
  {
    if items == [] || st.aborted then (items, st)
    else
      var (first, st1) := ApplyItem(q, address, items[0], st);
      var (rest, st2) := ApplyItems(q, address, items[1..], st1);
      ([first] + rest, st2)
  }

  function ApplyItem(q: Request, address: Str, it: Item, st: State): (r: (Item, State))
    decreases it, 0, 0
  {
    match it
    case Field(n, c) => var (c', st') := ApplyBody(q, address, n, c, st); (Field(n, c'), st')
    case Comment(_) => (it, st)
  }

  /** Elements i..n-1 of the vector v resized to n. */
  function ApplyElems(q: Request, address: Str, v: Body, n: nat, i: nat, st: State): (r: (seq<Body>, State))
    requires v.VecBody? && i <= n
    ensures |r.0| == n - i
    decreases v, 0, n - i
  {
    if i == n || st.aborted then (Slots(v, n, i), st)
    else
      var (first, st1) := ApplyBody(q, address, IndexName(i), Slot(v, i), st);
      var (rest, st2) := ApplyElems(q, address, v, n, i + 1, st1);
      ([first] + rest, st2)
  }

  /** The leaves after the edit, when no vector is resized: only the target leaf has changed. */
  function SetLeaves(q: Request, leaves: seq<Leaf>): (r: seq<Leaf>)
    requires forall k :: 0 <= k < |leaves| ==> IsLeaf(leaves[k].value)
    ensures |r| == |leaves|
  {
    seq(|leaves|, k requires 0 <= k < |leaves| =>
      if leaves[k].fullname == q.target
      then Leaf(leaves[k].fullname, Decode(q, leaves[k].value), leaves[k].sizes)
      else leaves[k])
  }

  lemma SetLeavesAppend(q: Request, a: seq<Leaf>, b: seq<Leaf>)
    requires forall k :: 0 <= k < |a| ==> IsLeaf(a[k].value)
    requires forall k :: 0 <= k < |b| ==> IsLeaf(b[k].value)
    ensures SetLeaves(q, a + b) == SetLeaves(q, a) + SetLeaves(q, b)
  {
  }

  /** A slot of a well-formed vector is itself well-formed and has the element shape. */
  lemma SlotWF(v: Body, i: nat)
    requires v.VecBody? && WF(v)
    ensures WF(Slot(v, i)) && Erase(Slot(v, i)) == Erase(v.blank)
  {
  }

  lemma SlotsAll(v: Body)
    requires v.VecBody?
    ensures Slots(v, |v.elems|, 0) == v.elems
  {
  }

  // ---------------------------------------------------------------------
  // A request naming no leaf changes nothing.

  lemma {:induction false} UnmatchedBody(q: Request, address: Str, name: Str, b: Body, st: State)
    requires WF(b) && !st.aborted
    requires q.target !in Names(Leaves(address, name, b))
    ensures ApplyBody(q, address, name, b, st) == (b, st)
    decreases b, 2, 0
  {
    var inner := Enter(address, name);
    match b
    case ObjBody(items) => UnmatchedItems(q, inner, items, st);
    case VecBody(elems, blank) =>
      var ls := Leaves(address, name, b);
      assert ls[0].fullname == inner + "length";
      NamesAppend(ls[..1], ElemsLeaves(inner, b, |elems|, 0));
      assert ls == ls[..1] + ElemsLeaves(inner, b, |elems|, 0);
      forall j | 0 <= j < |elems|
        ensures WF(Slot(b, j))
      {
        SlotWF(b, j);
      }
      UnmatchedElems(q, inner, b, |elems|, 0, st);
      SlotsAll(b);
    case _ =>
      assert Names(Leaves(address, name, b))[0] == address + name;
  }

  lemma {:induction false} UnmatchedItems(q: Request, address: Str, items: seq<Item>, st: State)
    requires WFItems(items) && !st.aborted
    requires q.target !in Names(ItemsLeaves(address, items))
    ensures ApplyItems(q, address, items, st) == (items, st)
    decreases items, 0, 0
  {
    if items != [] {
      if items[0].Field? {
        var n, c := items[0].name, items[0].body;
        NamesAppend(Leaves(address, n, c), ItemsLeaves(address, items[1..]));
        UnmatchedBody(q, address, n, c, st);
      } else {
        assert ItemsLeaves(address, items) == ItemsLeaves(address, items[1..]);
      }
      UnmatchedItems(q, address, items[1..], st);
      assert items == [items[0]] + items[1..];
    }
  }

  lemma {:induction false} UnmatchedElems(q: Request, address: Str, v: Body, n: nat, i: nat, st: State)
    requires v.VecBody? && i <= n && !st.aborted
    requires forall j :: i <= j < n ==> WF(Slot(v, j))
    requires q.target !in Names(ElemsLeaves(address, v, n, i))
    ensures ApplyElems(q, address, v, n, i, st) == (Slots(v, n, i), st)
    decreases v, 0, n - i
  {
    if i < n {
      NamesAppend(Leaves(address, IndexName(i), Slot(v, i)), ElemsLeaves(address, v, n, i + 1));
      UnmatchedBody(q, address, IndexName(i), Slot(v, i), st);
      UnmatchedElems(q, address, v, n, i + 1, st);
      assert Slots(v, n, i) == [Slot(v, i)] + Slots(v, n, i + 1);
    }
  }

  // ---------------------------------------------------------------------
  // `found` reports exactly whether some leaf carries the target name.

  lemma {:induction false} FoundBody(q: Request, address: Str, name: Str, b: Body, st: State)
    requires WF(b) && !st.aborted
    ensures var r := ApplyBody(q, address, name, b, st);
      && r.1.found == (st.found || q.target in Names(Leaves(address, name, b)))
      && (r.1.aborted ==> q.target in Names(Leaves(address, name, b)))
    decreases b, 2, 0
  {
    var inner := Enter(address, name);
    match b
    case ObjBody(items) => FoundItems(q, inner, items, st);
    case VecBody(elems, blank) =>
      var ls := Leaves(address, name, b);
      assert ls[0].fullname == inner + "length";
      NamesAppend(ls[..1], ElemsLeaves(inner, b, |elems|, 0));
      assert ls == ls[..1] + ElemsLeaves(inner, b, |elems|, 0);
      assert Names(ls[..1]) == [inner + "length"];
      if inner + "length" == q.target {
        var len := Atoi(q.text);
        if len >= 0 {
          forall j | 0 <= j < len
            ensures WF(Slot(b, j))
          {
            SlotWF(b, j);
          }
          FoundElems(q, inner, b, len, 0, State(true, false));
        }
      } else {
        forall j | 0 <= j < |elems|
          ensures WF(Slot(b, j))
        {
          SlotWF(b, j);
        }
        FoundElems(q, inner, b, |elems|, 0, st);
      }
    case _ =>
      assert Names(Leaves(address, name, b)) == [address + name];
  }

  lemma {:induction false} FoundItems(q: Request, address: Str, items: seq<Item>, st: State)
    requires WFItems(items) && !st.aborted
    ensures var r := ApplyItems(q, address, items, st);
      && r.1.found == (st.found || q.target in Names(ItemsLeaves(address, items)))
      && (r.1.aborted ==> q.target in Names(ItemsLeaves(address, items)))
    decreases items, 0, 0
  {
    if items != [] {
      var st1 := st;
      if items[0].Field? {
        var n, c := items[0].name, items[0].body;
        NamesAppend(Leaves(address, n, c), ItemsLeaves(address, items[1..]));
        FoundBody(q, address, n, c, st);
        st1 := ApplyBody(q, address, n, c, st).1;
      } else {
        assert ItemsLeaves(address, items) == ItemsLeaves(address, items[1..]);
      }
      assert ApplyItems(q, address, items, st).1 == ApplyItems(q, address, items[1..], st1).1;
      if !st1.aborted {
        FoundItems(q, address, items[1..], st1);
      }
    }
  }

  lemma {:induction false} FoundElems(q: Request, address: Str, v: Body, n: nat, i: nat, st: State)
    requires v.VecBody? && i <= n && !st.aborted
    requires forall j :: i <= j < n ==> WF(Slot(v, j))
    ensures var r := ApplyElems(q, address, v, n, i, st);
      && r.1.found == (st.found || q.target in Names(ElemsLeaves(address, v, n, i)))
      && (r.1.aborted ==> q.target in Names(ElemsLeaves(address, v, n, i)))
    decreases v, 0, n - i
  {
    if i < n {
      NamesAppend(Leaves(address, IndexName(i), Slot(v, i)), ElemsLeaves(address, v, n, i + 1));
      FoundBody(q, address, IndexName(i), Slot(v, i), st);
      var st1 := ApplyBody(q, address, IndexName(i), Slot(v, i), st).1;
      assert ApplyElems(q, address, v, n, i, st).1 == ApplyElems(q, address, v, n, i + 1, st1).1;
      if !st1.aborted {
        FoundElems(q, address, v, n, i + 1, st1);
      }
    }
  }

  // ---------------------------------------------------------------------
  // A request naming no vector's `length` changes exactly the leaves so named.

  /** No leaf that carries the target name is the `length` of a vector. */
  predicate NoResize(q: Request, leaves: seq<Leaf>)
  {
    forall k :: 0 <= k < |leaves| && leaves[k].fullname == q.target ==> !leaves[k].sizes
  }

  lemma NoResizeAppend(q: Request, a: seq<Leaf>, b: seq<Leaf>)
    requires NoResize(q, a + b)
    ensures NoResize(q, a) && NoResize(q, b)
  {
    forall k | 0 <= k < |a| && a[k].fullname == q.target
      ensures !a[k].sizes
    {
      assert (a + b)[k] == a[k];
    }
    forall k | 0 <= k < |b| && b[k].fullname == q.target
      ensures !b[k].sizes
    {
      assert (a + b)[|a| + k] == b[k];
    }
  }

  lemma {:induction false} EditBody(q: Request, address: Str, name: Str, b: Body, st: State)
    requires WF(b) && !st.aborted && |q.text| < TWO31
    requires NoResize(q, Leaves(address, name, b))
    ensures var r := ApplyBody(q, address, name, b, st);
      && !r.1.aborted
      && Leaves(address, name, r.0) == SetLeaves(q, Leaves(address, name, b))
      && WF(r.0) && Erase(r.0) == Erase(b)
    decreases b, 2, 0
  {
    var inner := Enter(address, name);
    match b
    case ObjBody(items) =>
      EditItems(q, inner, items, st);
      var x := ApplyItems(q, inner, items, st).0;
      assert EraseItems(x) == EraseItems(items);
    case VecBody(_, _) =>
      EditVec(q, address, name, b, st);
    case _ =>
      UnescapedShorter(q.text);
  }

  lemma {:induction false} EditVec(q: Request, address: Str, name: Str, b: Body, st: State)
    requires b.VecBody? && WF(b) && !st.aborted && |q.text| < TWO31
    requires NoResize(q, Leaves(address, name, b))
    ensures var r := ApplyBody(q, address, name, b, st);
      && !r.1.aborted
      && Leaves(address, name, r.0) == SetLeaves(q, Leaves(address, name, b))
      && WF(r.0) && Erase(r.0) == Erase(b)
    decreases b, 1, 0
  {
    var inner := Enter(address, name);
    var elems, blank := b.elems, b.blank;
    var ls := Leaves(address, name, b);
    assert ls[0].fullname == inner + "length" && ls[0].sizes;
    var es := ElemsLeaves(inner, b, |elems|, 0);
    assert ls == [ls[0]] + es;
    NoResizeAppend(q, [ls[0]], es);
    forall j | 0 <= j < |elems|
      ensures WF(Slot(b, j))
    {
      SlotWF(b, j);
    }
    var r := ApplyElems(q, inner, b, |elems|, 0, st);
    var w := VecBody(r.0, blank);
    assert w.elems[0..] == r.0;
    EditElems(q, inner, b, |elems|, 0, st, w);
    SetLeavesAppend(q, [ls[0]], es);
    assert Leaves(address, name, w) == [ls[0]] + ElemsLeaves(inner, w, |elems|, 0);
    forall k | 0 <= k < |r.0|
      ensures WF(r.0[k]) && Erase(r.0[k]) == Erase(blank)
    {
      SlotWF(b, k);
    }
  }

  lemma {:induction false} EditItem(q: Request, address: Str, it: Item, st: State)
    requires !st.aborted && |q.text| < TWO31
    requires it.Field? ==> WF(it.body)
    requires NoResize(q, ItemLeaves(address, it))
    ensures var r := ApplyItem(q, address, it, st);
      && !r.1.aborted
      && ItemLeaves(address, r.0) == SetLeaves(q, ItemLeaves(address, it))
      && (r.0.Field? ==> WF(r.0.body)) && EraseItem(r.0) == EraseItem(it)
    decreases it, 0, 0
  {
    match it
    case Field(n, c) => EditBody(q, address, n, c, st);
    case Comment(_) =>
  }

  lemma {:induction false} EditItems(q: Request, address: Str, items: seq<Item>, st: State)
    requires WFItems(items) && !st.aborted && |q.text| < TWO31
    requires NoResize(q, ItemsLeaves(address, items))
    ensures var r := ApplyItems(q, address, items, st);
      && !r.1.aborted
      && ItemsLeaves(address, r.0) == SetLeaves(q, ItemsLeaves(address, items))
      && WFItems(r.0) && EraseItems(r.0) == EraseItems(items)
    decreases items, 1, 0
  {
    if items != [] {
      var a := ItemLeaves(address, items[0]);
      NoResizeAppend(q, a, ItemsLeaves(address, items[1..]));
      SetLeavesAppend(q, a, ItemsLeaves(address, items[1..]));
      EditItem(q, address, items[0], st);
      var (first, st1) := ApplyItem(q, address, items[0], st);
      EditItems(q, address, items[1..], st1);
      var rest := ApplyItems(q, address, items[1..], st1).0;
      assert ApplyItems(q, address, items, st).0 == [first] + rest;
      ItemsCons(address, first, rest);
      assert items == [items[0]] + items[1..];
      ItemsCons(address, items[0], items[1..]);
    }
  }

  lemma {:induction false} EditElems(q: Request, address: Str, v: Body, n: nat, i: nat, st: State, w: Body)
    requires v.VecBody? && i <= n && !st.aborted && |q.text| < TWO31
    requires forall j :: i <= j < n ==> WF(Slot(v, j))
    requires NoResize(q, ElemsLeaves(address, v, n, i))
    requires w.VecBody? && |w.elems| == n && w.elems[i..] == ApplyElems(q, address, v, n, i, st).0
    ensures var r := ApplyElems(q, address, v, n, i, st);
      && !r.1.aborted
      && ElemsLeaves(address, w, n, i) == SetLeaves(q, ElemsLeaves(address, v, n, i))
      && forall j :: 0 <= j < n - i ==> WF(r.0[j]) && Erase(r.0[j]) == Erase(Slot(v, i + j))
    decreases v, 0, n - i
  {
    if i < n {
      var l := Leaves(address, IndexName(i), Slot(v, i));
      var b1 := ApplyBody(q, address, IndexName(i), Slot(v, i), st);
      var r := ApplyElems(q, address, v, n, i, st);
      var rest := ApplyElems(q, address, v, n, i + 1, b1.1);
      NoResizeAppend(q, l, ElemsLeaves(address, v, n, i + 1));
      EditBody(q, address, IndexName(i), Slot(v, i), st);
      assert r.0 == [b1.0] + rest.0;
      assert Slot(w, i) == b1.0 && w.elems[i + 1..] == rest.0 by {
        assert w.elems[i..][0] == w.elems[i] && w.elems[i..][1..] == w.elems[i + 1..];
      }
      EditElems(q, address, v, n, i + 1, b1.1, w);
      assert ElemsLeaves(address, w, n, i) == SetLeaves(q, ElemsLeaves(address, v, n, i)) by {
        SetLeavesAppend(q, l, ElemsLeaves(address, v, n, i + 1));
        assert ElemsLeaves(address, w, n, i)
          == Leaves(address, IndexName(i), b1.0) + ElemsLeaves(address, w, n, i + 1);
      }
      forall j | 0 < j < n - i
        ensures WF(r.0[j]) && Erase(r.0[j]) == Erase(Slot(v, i + j))
      {
        assert r.0[j] == rest.0[j - 1];
      }
    }
  }

  // ---------------------------------------------------------------------
  // A request naming a vector's `length` resizes that vector.

  /** No leaf inside a vector's elements is named like the vector's `length`. */
  lemma LengthNotAnElement(q: Request, inner: Str, v: Body, n: nat)
    requires v.VecBody? && q.target == inner + "length"
    ensures q.target !in Names(ElemsLeaves(inner, v, n, 0))
  {
    ElemsPrefix(inner, v, n, 0);
  }

  lemma ResizeVec(q: Request, address: Str, name: Str, b: Body, st: State)
    requires b.VecBody? && WF(b) && !st.aborted
    requires q.target == Enter(address, name) + "length"
    ensures var r := ApplyBody(q, address, name, b, st);
      && (Atoi(q.text) < 0 ==> r == (b, State(true, true)))
      && (Atoi(q.text) >= 0 ==>
            r == (VecBody(Resized(b.elems, b.blank, Atoi(q.text)), b.blank), State(true, false)))
  {
    var inner := Enter(address, name);
    var len := Atoi(q.text);
    if len >= 0 {
      LengthNotAnElement(q, inner, b, len);
      forall j | 0 <= j < len
        ensures WF(Slot(b, j))
      {
        SlotWF(b, j);
      }
      UnmatchedElems(q, inner, b, len, 0, State(true, false));
      assert Slots(b, len, 0) == Resized(b.elems, b.blank, len);
    }
  }

  // ---------------------------------------------------------------------
  // Whatever the request, the variables keep their shape.

  /**
    Applying any request, even one that resizes a vector or throws, keeps the
    shape of every variable and leaves only values a running program can hold.
   */
  lemma {:induction false} ShapeBody(q: Request, address: Str, name: Str, b: Body, st: State)
    requires WF(b) && |q.text| < TWO31
    ensures WF(ApplyBody(q, address, name, b, st).0) && Erase(ApplyBody(q, address, name, b, st).0) == Erase(b)
    decreases b, 2, 0
  {
    if !st.aborted {
      match b
      case ObjBody(items) =>
        ShapeItems(q, Enter(address, name), items, st);
      case VecBody(_, _) =>
        ShapeVec(q, address, name, b, st);
      case _ =>
        UnescapedShorter(q.text);
    }
  }

  lemma {:induction false} ShapeVec(q: Request, address: Str, name: Str, v: Body, st: State)
    requires v.VecBody? && WF(v) && !st.aborted && |q.text| < TWO31
    ensures WF(ApplyVec(q, address, name, v, st).0) && Erase(ApplyVec(q, address, name, v, st).0) == Erase(v)
    decreases v, 1, 0
  {
    var inner := Enter(address, name);
    var (len, st1) :=
      if inner + "length" == q.target then (Atoi(q.text), State(true, false))
      else (VisitedLength(v.elems), st);
    if len >= 0 {
      ShapeElems(q, inner, v, len, 0, st1);
      var x := ApplyElems(q, inner, v, len, 0, st1).0;
      assert forall k :: 0 <= k < |x| ==> WF(x[k]) && Erase(x[k]) == Erase(v.blank);
    }
  }

  lemma {:induction false} ShapeItems(q: Request, address: Str, items: seq<Item>, st: State)
    requires WFItems(items) && |q.text| < TWO31
    ensures WFItems(ApplyItems(q, address, items, st).0)
    ensures EraseItems(ApplyItems(q, address, items, st).0) == EraseItems(items)
    decreases items, 1, 0
  {
    if items != [] && !st.aborted {
      assert items == [items[0]] + items[1..];
      ItemsCons(address, items[0], items[1..]);
      ShapeItem(q, address, items[0], st);
      var a := ApplyItem(q, address, items[0], st);
      ShapeItems(q, address, items[1..], a.1);
      ItemsCons(address, a.0, ApplyItems(q, address, items[1..], a.1).0);
    }
  }

  lemma {:induction false} ShapeItem(q: Request, address: Str, it: Item, st: State)
    requires (it.Field? ==> WF(it.body)) && |q.text| < TWO31
    ensures var r := ApplyItem(q, address, it, st).0; (r.Field? ==> WF(r.body)) && EraseItem(r) == EraseItem(it)
    decreases it, 0, 0
  {
    match it
    case Field(n, c) => ShapeBody(q, address, n, c, st);
    case Comment(_) =>
  }

  lemma {:induction false} ShapeElems(q: Request, address: Str, v: Body, n: nat, i: nat, st: State)
    requires v.VecBody? && WF(v) && i <= n && |q.text| < TWO31
    ensures forall j :: 0 <= j < n - i ==>
      WF(ApplyElems(q, address, v, n, i, st).0[j])
      && Erase(ApplyElems(q, address, v, n, i, st).0[j]) == Erase(v.blank)
    decreases v, 0, n - i
  {
    var r := ApplyElems(q, address, v, n, i, st);
    if i == n || st.aborted {
      forall j | 0 <= j < n - i
        ensures WF(r.0[j]) && Erase(r.0[j]) == Erase(v.blank)
      {
        SlotWF(v, i + j);
      }
    } else {
      if i < |v.elems| {
        ShapeBody(q, address, IndexName(i), v.elems[i], st);
        assert Erase(v.elems[i]) == Erase(v.blank);
      } else {
        ShapeBody(q, address, IndexName(i), v.blank, st);
      }
      var a := ApplyBody(q, address, IndexName(i), Slot(v, i), st);
      ShapeElems(q, address, v, n, i + 1, a.1);
      var rest := ApplyElems(q, address, v, n, i + 1, a.1).0;
      assert r.0 == [a.0] + rest;
      forall j | 0 < j < n - i
        ensures WF(r.0[j]) && Erase(r.0[j]) == Erase(v.blank)
      {
        assert r.0[j] == rest[j - 1];
      }
    }
  }

  /**
    `pup_from_name_value`.  `address` and `oldAddresses` are the object path
    the traversal is inside; `aborted` is set when a resize throws, after
    which no further statement of the traversal runs (so the path is left as
    it was at the throw).
   */
  class NameValueApplier {
    const request: Request
    var found: bool
    var aborted: bool
    var address: Str
    var oldAddresses: seq<Str>

    constructor (q: Request)
      ensures request == q && !found && !aborted && address == [] && oldAddresses == []
    {
      request := q;
      found := false;
      aborted := false;
      address := [];
      oldAddresses := [];
    }

    /** `inner`: is `address + shortname` the target?  A hit sets `found`. */
    method Inner(shortname: Str) returns (hit: bool)
      modifies this
      ensures hit <==> address + shortname == request.target
      ensures found == (old(found) || hit)
      ensures aborted == old(aborted) && address == old(address) && oldAddresses == old(oldAddresses)
    {
      var fullname := address + shortname;
      hit := fullname == request.target;
      if hit {
        found := true;
      }
    }

    method ObjectBegin(shortname: Str)
      modifies this
      ensures oldAddresses == old(oldAddresses) + [old(address)]
      ensures address == Enter(old(address), shortname)
      ensures found == old(found) && aborted == old(aborted)
    {
      oldAddresses := oldAddresses + [address];
      address := address + shortname + ".";
    }

    method ObjectEnd(shortname: Str)
      requires oldAddresses != []
      modifies this
      ensures address == old(oldAddresses[|oldAddresses| - 1])
      ensures oldAddresses == old(oldAddresses[..|oldAddresses| - 1])
      ensures found == old(found) && aborted == old(aborted)
    {
      address := oldAddresses[|oldAddresses| - 1];
      oldAddresses := oldAddresses[..|oldAddresses| - 1];
    }

    /** The float, int, string and enum methods: the new value on a hit, else the old one. */
    method PupLeaf(shortname: Str, value: Body) returns (r: Body)
      requires IsLeaf(value) && !aborted
      modifies this
      ensures (r, State(found, aborted)) == ApplyBody(request, old(address), shortname, value, State(old(found), false))
      ensures address == old(address) && oldAddresses == old(oldAddresses)
    {
      var hit := Inner(shortname);
      r := value;
      if hit {
        match value
        case FloatBody(_) => r := FloatBody(request.asFloat);
        case IntBody(_) => r := IntBody(Atoi(request.text));
        case StrBody(_) =>
          var s := UnescapeUrl(request.text);
          r := StrBody(s);
        case EnumBody(_, options) => r := EnumBody(ToUnsigned(Atoi(request.text)), options);
      }
    }

    method PupNamed(shortname: Str, b: Body) returns (r: Body)
      modifies this
      ensures (r, State(found, aborted)) == ApplyBody(request, old(address), shortname, b, State(old(found), old(aborted)))
      ensures !aborted ==> address == old(address) && oldAddresses == old(oldAddresses)
      decreases b, 2
    {
      if aborted {
        return b;
      }
      match b
      case ObjBody(items) =>
        ObjectBegin(shortname);
        var x := PupItems(items);
        if !aborted {
          ObjectEnd(shortname);
        }
        r := ObjBody(x);
      case VecBody(_, _) =>
        r := PupVector(shortname, b);
      case _ =>
        r := PupLeaf(shortname, b);
    }

    /** The vector pup inside its object bracket. */
    method PupVector(shortname: Str, b: Body) returns (r: Body)
      requires b.VecBody? && !aborted
      modifies this
      ensures (r, State(found, aborted)) == ApplyVec(request, old(address), shortname, b, State(old(found), false))
      ensures !aborted ==> address == old(address) && oldAddresses == old(oldAddresses)
      decreases b, 1
    {
      ObjectBegin(shortname);
      var inner := address;
      var lengthLeaf := PupLeaf("length", IntBody(VisitedLength(b.elems)));
      var length := lengthLeaf.i;
      if length < 0 {
        aborted := true;
        return b;
      }
      var elems := PupElems(b, length);
      if !aborted {
        ObjectEnd(shortname);
      }
      r := VecBody(elems, b.blank);
    }

    /** The loop over the elements of the vector b resized to `length`. */
    method PupElems(b: Body, length: nat) returns (r: seq<Body>)
      requires b.VecBody? && !aborted
      modifies this
      ensures (r, State(found, aborted)) == ApplyElems(request, old(address), b, length, 0, State(old(found), false))
      ensures !aborted ==> address == old(address) && oldAddresses == old(oldAddresses)
      decreases b, 0
    {
      var v := Resized(b.elems, b.blank, length);
      ghost var st0 := State(found, aborted);
      ghost var inner := address;
      var done: seq<Body> := [];
      var i := 0;
      while i < length && !aborted
        invariant 0 <= i <= length && |done| == i
        invariant !aborted ==> address == inner && oldAddresses == old(oldAddresses)
        invariant ApplyElems(request, inner, b, length, 0, st0).0
          == done + ApplyElems(request, inner, b, length, i, State(found, aborted)).0
        invariant ApplyElems(request, inner, b, length, 0, st0).1
          == ApplyElems(request, inner, b, length, i, State(found, aborted)).1
        decreases length - i
      {
        assert v[i] == Slot(b, i);
        ghost var a := ApplyBody(request, inner, IndexName(i), Slot(b, i), State(found, aborted));
        ghost var rest := ApplyElems(request, inner, b, length, i + 1, a.1);
        assert ApplyElems(request, inner, b, length, i, State(found, aborted)) == ([a.0] + rest.0, rest.1);
        var x := PupNamed(IndexName(i), v[i]);
        Assoc(done, [x], rest.0);
        done := done + [x];
        i := i + 1;
      }
      assert v[i..] == Slots(b, length, i);
      r := done + v[i..];
    }

    /** One statement of an object's pup function: a field, or a comment this visitor ignores. */
    method PupItem(it: Item) returns (r: Item)
      modifies this
      ensures (r, State(found, aborted)) == ApplyItem(request, old(address), it, State(old(found), old(aborted)))
      ensures !aborted ==> address == old(address) && oldAddresses == old(oldAddresses)
      decreases it, 0
    {
      r := it;
      if it.Field? {
        var c' := PupNamed(it.name, it.body);
        r := Field(it.name, c');
      }
    }

    /** An object's own pup function: its statements in order, until something throws. */
    method PupItems(items: seq<Item>) returns (r: seq<Item>)
      modifies this
      ensures (r, State(found, aborted)) == ApplyItems(request, old(address), items, State(old(found), old(aborted)))
      ensures !aborted ==> address == old(address) && oldAddresses == old(oldAddresses)
      decreases items, 1
    {
      ghost var st0 := State(found, aborted);
      ghost var a0 := address;
      r := [];
      var k := 0;
      assert items[0..] == items;
      while k < |items| && !aborted
        invariant 0 <= k <= |items| && |r| == k
        invariant !aborted ==> address == a0 && oldAddresses == old(oldAddresses)
        invariant ApplyItems(request, a0, items, st0).0
          == r + ApplyItems(request, a0, items[k..], State(found, aborted)).0
        invariant ApplyItems(request, a0, items, st0).1
          == ApplyItems(request, a0, items[k..], State(found, aborted)).1
      {
        assert items[k..][1..] == items[k + 1..];
        ghost var a := ApplyItem(request, a0, items[k], State(found, aborted));
        ghost var rest := ApplyItems(request, a0, items[k + 1..], a.1);
        assert ApplyItems(request, a0, items[k..], State(found, aborted)) == ([a.0] + rest.0, rest.1);
        var x := PupItem(items[k]);
        Assoc(r, [x], rest.0);
        r := r + [x];
        k := k + 1;
      }
      r := r + items[k..];
    }
  }
}
