/**
  The program variables that the configuration editor exposes, as the tree
  that every `pup_er` visitor walks.

  A registered object's own `pup` function is a list of `PUPf`/`PUPn`/`PUPc`
  calls; here that list is an `ObjBody`'s items.  Visiting a named value follows
  the overload that the C++ code picks:
  - float, int and std::string fields call the visitor's leaf method;
  - an enum (unsigned int with a name/value table) calls the enum method;
  - any other object goes through the generic `pup(p, name, obj)` of
    webconfig.h, which brackets the object's fields between
    `pup_objectbegin(name)` and `pup_objectend(name)`;
  - a std::vector goes through the same bracket and then the vector `pup`:
    an int field named `length`, a resize, and element i under the name of
    the decimal number i.

  This module holds the tree, its shape, and the list of leaves with their
  fully qualified names in visiting order, which the visitors are proved
  against.
 */
module FieldTree {
  import opened Ints
  import opened WebStrings

  /** A float field, kept as its 4-byte pattern: the model never computes with floats. */
  datatype Float32 = Float32(bits: uint32)

  /** One row of an enum's name/value table. */
  datatype EnumOption = EnumOption(value: uint32, caption: Str)

  datatype Body =
    | FloatBody(f: Float32)
    | IntBody(i: int32)
    | StrBody(s: Str)
    | EnumBody(e: uint32, options: seq<EnumOption>)
    | ObjBody(items: seq<Item>)
    /** A std::vector; `blank` is the value-initialised element resize() appends. */
    | VecBody(elems: seq<Body>, blank: Body)

  /** One statement of an object's pup function: a named field, or a `PUPc` comment. */
  datatype Item = Field(name: Str, body: Body) | Comment(text: Str)

  predicate IsLeaf(b: Body)
  {
    b.FloatBody? || b.IntBody? || b.StrBody? || b.EnumBody?
  }

  /** The name vector element i is visited under (`snprintf(index, 100, "%d", i)`). */
  function IndexName(i: nat): Str
  {
    Itos(i)
  }

  /** The address inside an object: what `pup_objectbegin(name)` makes of the current one. */
  function Enter(address: Str, name: Str): Str
  {
    address + name + "."
  }

  /** The `int length = v.size()` that the vector pup visits. */
  function VisitedLength(elems: seq<Body>): int32
  {
    Wrap32(|elems|)
  }

  /** The contents of a vector after `v.resize(n)`. */
  function Resized(elems: seq<Body>, blank: Body, n: nat): (r: seq<Body>)
    ensures |r| == n
    ensures forall i :: 0 <= i < n ==> r[i] == if i < |elems| then elems[i] else blank
  {
    if n <= |elems| then elems[..n] else elems + seq(n - |elems|, _ => blank)
  }

  /**
    The shape of a value: field names, kinds, enum tables, comments and the
    element type of every vector, with the values themselves erased.  Two
    trees with the same shape are two states of the same program variables.
   */
  function Erase(b: Body): (r: Body)
    ensures IsLeaf(b) <==> IsLeaf(r)
    decreases b, 2
  {
    match b
    case FloatBody(_) => FloatBody(Float32(0))
    case IntBody(_) => IntBody(0)
    case StrBody(_) => StrBody([])
    case EnumBody(_, options) => EnumBody(0, options)
    case ObjBody(items) => ObjBody(EraseItems(items))
    case VecBody(_, blank) => VecBody([], blank)
  }

  function EraseItems(items: seq<Item>): (r: seq<Item>)
    ensures |r| == |items|
    ensures forall k :: 0 <= k < |items| ==> r[k] == EraseItem(items[k])
    decreases items, 1
  {
    seq(|items|, k requires 0 <= k < |items| => EraseItem(items[k]))
  }

  function EraseItem(it: Item): Item
    decreases it, 0
  {
    match it
    case Field(n, c) => Field(n, Erase(c))
    case Comment(t) => Comment(t)
  }

  /**
    The values a running program can hold: every string and vector is shorter
    than 2^31 (their lengths go through an `int`), and every vector element
    has the shape of the vector's element type.
   */
  predicate WF(b: Body)
  {
    match b
    case StrBody(s) => |s| < TWO31
    case ObjBody(items) => forall k :: 0 <= k < |items| && items[k].Field? ==> WF(items[k].body)
    case VecBody(elems, blank) =>
      && |elems| < TWO31
      && WF(blank)
      && forall k :: 0 <= k < |elems| ==> WF(elems[k]) && Erase(elems[k]) == Erase(blank)
    case _ => true
  }

  predicate WFItems(items: seq<Item>)
  {
    forall k :: 0 <= k < |items| && items[k].Field? ==> WF(items[k].body)
  }

  /**
    A leaf as the visitors meet it: its fully qualified name, its value, and
    whether it is the `length` of a vector (the one leaf whose new value makes
    the traversal resize something).
   */
  datatype Leaf = Leaf(fullname: Str, value: Body, sizes: bool)

  /** The leaves of the named value `b`, inside the object at `address`, in visiting order. */
  function Leaves(address: Str, name: Str, b: Body): (r: seq<Leaf>)
    ensures forall k :: 0 <= k < |r| ==> IsLeaf(r[k].value)
    decreases b, 1, 0
  {
    match b
    case ObjBody(items) => ItemsLeaves(Enter(address, name), items)
    case VecBody(elems, _) =>
      [Leaf(Enter(address, name) + "length", IntBody(VisitedLength(elems)), true)]
        + ElemsLeaves(Enter(address, name), b, |elems|, 0)
    case _ => [Leaf(address + name, b, false)]
  }

  function ItemsLeaves(address: Str, items: seq<Item>): (r: seq<Leaf>)
    ensures forall k :: 0 <= k < |r| ==> IsLeaf(r[k].value)
    decreases items, 1, 0
  {
    if items == [] then [] else ItemLeaves(address, items[0]) + ItemsLeaves(address, items[1..])
  }

  function ItemLeaves(address: Str, it: Item): (r: seq<Leaf>)
    ensures forall k :: 0 <= k < |r| ==> IsLeaf(r[k].value)
    decreases it, 0, 0
  {
    match it
    case Field(n, c) => Leaves(address, n, c)
    case Comment(_) => []
  }

  /** The element a vector resized to at least i+1 elements holds at index i. */
  function Slot(v: Body, i: nat): Body
    requires v.VecBody?
  {
    if i < |v.elems| then v.elems[i] else v.blank
  }

  /** The elements i..n-1 of the vector v resized to n. */
  function Slots(v: Body, n: nat, i: nat): (r: seq<Body>)
    requires v.VecBody? && i <= n
    ensures |r| == n - i
    ensures forall j :: 0 <= j < n - i ==> r[j] == Slot(v, i + j)
  {
    seq(n - i, j requires 0 <= j < n - i => Slot(v, i + j))
  }

  /** The leaves of the elements i, i+1, ..., n-1 of the vector v resized to n. */
  function ElemsLeaves(address: Str, v: Body, n: nat, i: nat): (r: seq<Leaf>)
    requires v.VecBody? && i <= n
    ensures forall k :: 0 <= k < |r| ==> IsLeaf(r[k].value)
    decreases v, 0, n - i
  {
    if i == n then []
    else Leaves(address, IndexName(i), Slot(v, i)) + ElemsLeaves(address, v, n, i + 1)
  }

  function Names(leaves: seq<Leaf>): (r: seq<Str>)
    ensures |r| == |leaves|
    ensures forall k :: 0 <= k < |leaves| ==> r[k] == leaves[k].fullname
  {
    seq(|leaves|, k requires 0 <= k < |leaves| => leaves[k].fullname)
  }

  /** The registered objects: each is visited as a field named by its registration name. */
  function RegistryLeaves(entries: seq<Item>): seq<Leaf>
  {
    ItemsLeaves("", entries)
  }

  lemma NamesAppend(a: seq<Leaf>, b: seq<Leaf>)
    ensures Names(a + b) == Names(a) + Names(b)
  {
  }

  /** An object's statements, taken apart at the first one. */
  lemma ItemsCons(address: Str, it: Item, rest: seq<Item>)
    ensures ItemsLeaves(address, [it] + rest) == ItemLeaves(address, it) + ItemsLeaves(address, rest)
    ensures EraseItems([it] + rest) == [EraseItem(it)] + EraseItems(rest)
    ensures WFItems([it] + rest) <==> (it.Field? ==> WF(it.body)) && WFItems(rest)
  {
    var s := [it] + rest;
    assert s[0] == it && s[1..] == rest;
    EraseItemsCons(it, rest);
    WFItemsCons(it, rest);
  }

  lemma EraseItemsCons(it: Item, rest: seq<Item>)
    ensures EraseItems([it] + rest) == [EraseItem(it)] + EraseItems(rest)
  {
    var s := [it] + rest;
    var l, r := EraseItems(s), [EraseItem(it)] + EraseItems(rest);
    assert |l| == |r|;
    forall k | 0 <= k < |l|
      ensures l[k] == r[k]
    {
      if k > 0 {
        assert s[k] == rest[k - 1];
      }
    }
  }

  lemma WFItemsCons(it: Item, rest: seq<Item>)
    ensures WFItems([it] + rest) <==> (it.Field? ==> WF(it.body)) && WFItems(rest)
  {
    var s := [it] + rest;
    assert forall k :: 0 < k < |s| ==> s[k] == rest[k - 1];
    if WFItems(s) {
      assert s[0] == it;
      forall k | 0 <= k < |rest| && rest[k].Field?
        ensures WF(rest[k].body)
      {
        assert s[k + 1] == rest[k];
      }
    }
  }

  predicate HasPrefix(s: Str, p: Str)
  {
    |p| <= |s| && s[..|p|] == p
  }

  lemma PrefixTransitive(s: Str, p: Str, q: Str)
    requires HasPrefix(s, p + q)
    ensures HasPrefix(s, p)
  {
    assert s[..|p|] == (p + q)[..|p|];
  }

  /** Every leaf of a named value is named with that name inside its address. */
  lemma {:induction false} LeavesPrefix(address: Str, name: Str, b: Body)
    ensures forall k :: 0 <= k < |Leaves(address, name, b)| ==> HasPrefix(Leaves(address, name, b)[k].fullname, address + name)
    decreases b, 1, 0
  {
    var inner := Enter(address, name);
    match b
    case ObjBody(items) =>
      ItemsPrefix(inner, items);
      forall k | 0 <= k < |Leaves(address, name, b)|
        ensures HasPrefix(Leaves(address, name, b)[k].fullname, address + name)
      {
        PrefixTransitive(Leaves(address, name, b)[k].fullname, address + name, ".");
      }
    case VecBody(elems, _) =>
      ElemsPrefix(inner, b, |elems|, 0);
      forall k | 0 <= k < |Leaves(address, name, b)|
        ensures HasPrefix(Leaves(address, name, b)[k].fullname, address + name)
      {
        var fn := Leaves(address, name, b)[k].fullname;
        if k == 0 {
          assert fn == address + name + ("." + "length");
          PrefixTransitive(fn, address + name, "." + "length");
        } else {
          assert HasPrefix(fn, inner) by {
            assert Leaves(address, name, b)[k] == ElemsLeaves(inner, b, |elems|, 0)[k - 1];
          }
          PrefixTransitive(fn, address + name, ".");
        }
      }
    case _ =>
      assert Leaves(address, name, b)[0].fullname == address + name;
  }

  lemma {:induction false} ItemsPrefix(address: Str, items: seq<Item>)
    ensures forall k :: 0 <= k < |ItemsLeaves(address, items)| ==> HasPrefix(ItemsLeaves(address, items)[k].fullname, address)
    decreases items, 0, 0
  {
    if items != [] {
      ItemsPrefix(address, items[1..]);
      match items[0]
      case Field(n, c) =>
        LeavesPrefix(address, n, c);
        var l := Leaves(address, n, c);
        forall k | 0 <= k < |l|
          ensures HasPrefix(l[k].fullname, address)
        {
          PrefixTransitive(l[k].fullname, address, n);
        }
      case Comment(_) =>
    }
  }

  /** The leaves of vector elements are named by a decimal index: a digit follows the address. */
  lemma {:induction false} ElemsPrefix(address: Str, v: Body, n: nat, i: nat)
    requires v.VecBody? && i <= n
    ensures forall k :: 0 <= k < |ElemsLeaves(address, v, n, i)| ==>
      var fn := ElemsLeaves(address, v, n, i)[k].fullname;
      HasPrefix(fn, address) && |address| < |fn| && IsDigit(fn[|address|])
    decreases v, 0, n - i
  {
    if i < n {
      ElemsPrefix(address, v, n, i + 1);
      LeavesPrefix(address, IndexName(i), Slot(v, i));
      var l := Leaves(address, IndexName(i), Slot(v, i));
      var d := IndexName(i);
      assert IsDigit(d[0]);
      forall k | 0 <= k < |l|
        ensures HasPrefix(l[k].fullname, address) && |address| < |l[k].fullname|
        ensures IsDigit(l[k].fullname[|address|])
      {
        var fn := l[k].fullname;
        PrefixTransitive(fn, address, d);
        assert fn[|address|] == (address + d)[|address|] == d[0];
      }
    }
  }
}
