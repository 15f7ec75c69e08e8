/**
  The binary configuration file: `pup_to_binary_file` writes every leaf of
  the registered objects as raw memory bytes, and `pup_from_binary_file`
  reads them back into the same variables.

  An int, a float and an enum (which both visitors inherit the default of:
  visited as an int) are their 4 bytes in memory, least significant first;
  a string is its length as an int followed by its bytes.  Object
  boundaries and comments write nothing.

  The reader works on a std::istream.  A read that finds fewer bytes than it
  asks for stores the bytes it found over the start of its buffer and puts
  the stream into its failed state, after which every read leaves its buffer
  as it was.  A negative length handed to `resize` throws std::length_error,
  which unwinds the whole traversal: that is the `Aborted` input.
 */
module BinaryPup {
  import opened Ints
  import opened FieldTree

  datatype Input = Reading(rest: seq<byte>) | Failed | Aborted

  /** `s.read(buf, |buf|)`: the buffer's bytes afterwards, and the stream. */
  function ReadBytes(buf: seq<byte>, inp: Input): (r: (seq<byte>, Input))
    ensures |r.0| == |buf|
  {
    match inp
    case Reading(rest) =>
      if |buf| <= |rest| then (rest[..|buf|], Reading(rest[|buf|..]))
      else (rest + buf[|rest|..], Failed)
    case _ => (buf, inp)
  }

  function IntBytes(v: int32): (r: seq<byte>)
    ensures |r| == 4
  {
    LE32(ToUnsigned(v))
  }

  function BytesInt(b: seq<byte>): int32
    requires |b| == 4
  {
    ToSigned(FromLE32(b))
  }

  lemma IntBytesRoundTrip(v: int32)
    ensures BytesInt(IntBytes(v)) == v
  {
    LE32RoundTrip(ToUnsigned(v));
    UnsignedSignedRoundTrip(0, v);
  }

  /** `s.read((char *)&value, sizeof(int))` into an int holding v. */
  function ReadInt(v: int32, inp: Input): (int32, Input)
  {
    var (b, inp') := ReadBytes(IntBytes(v), inp);
    (BytesInt(b), inp')
  }

  /** `value.resize(n)` on a std::string: new characters are '\0'. */
  function ResizedStr(s: Str, n: nat): (r: Str)
    ensures |r| == n
    ensures forall k :: 0 <= k < n ==> r[k] == if k < |s| then s[k] else 0 as char
  {
    if n <= |s| then s[..n] else s + seq(n - |s|, _ => 0 as char)
  }

  /** The string reader: the length over `value.length()`, a resize, then the bytes. */
  function ReadStr(s: Str, inp: Input): (Str, Input)
  {
    var (len, inp1) := ReadInt(Wrap32(|s|), inp);
    if len < 0 then (s, Aborted)
    else
      var (b, inp2) := ReadBytes(StrBytes(ResizedStr(s, len)), inp1);
      (BytesStr(b), inp2)
  }

  /** Reading the named value b: its new value and the stream afterwards. */
  function ReadBody(b: Body, inp: Input): (r: (Body, Input))
    decreases b, 2, 0
  {
    if inp.Aborted? then (b, inp)
    else
      match b
      case FloatBody(f) =>
        var (x, inp') := ReadBytes(LE32(f.bits), inp);
        (FloatBody(Float32(FromLE32(x))), inp')
      case IntBody(v) =>
        var (x, inp') := ReadInt(v, inp);
        (IntBody(x), inp')
      case StrBody(s) =>
        var (x, inp') := ReadStr(s, inp);
        (StrBody(x), inp')
      case EnumBody(e, options) =>
        var (x, inp') := ReadInt(ToSigned(e), inp);
        (EnumBody(ToUnsigned(x), options), inp')
      case ObjBody(items) =>
        var (x, inp') := ReadItems(items, inp);
        (ObjBody(x), inp')
      case VecBody(_, _) => ReadVec(b, inp)
  }

  /** The vector pup: `length` read over the current size, the resize, then the elements. */
  function ReadVec(v: Body, inp: Input): (r: (Body, Input))
    requires v.VecBody?
    decreases v, 1, 0
  {
    var (len, inp1) := ReadInt(VisitedLength(v.elems), inp);
    if len < 0 then (v, Aborted)
    else
      var (x, inp') := ReadElems(v, len, 0, inp1);
      (VecBody(x, v.blank), inp')
  }

  function ReadItems(items: seq<Item>, inp: Input): (r: (seq<Item>, Input))
    ensures |r.0| == |items|
    decreases items, 0, 0
  {
    if items == [] then ([], inp)
    else
      var (first, inp1) := ReadItem(items[0], inp);
      var (rest, inp2) := ReadItems(items[1..], inp1);
      ([first] + rest, inp2)
  }

  /** One statement of an object's pup function: a field is read, a comment reads nothing. */
  function ReadItem(it: Item, inp: Input): (r: (Item, Input))
    decreases it, 0, 0
  {
    match it
    case Field(n, c) => var (c', i') := ReadBody(c, inp); (Field(n, c'), i')
    case Comment(_) => (it, inp)
  }

  /** Reading elements i..n-1 of the vector v after `v.resize(n)`. */
  function ReadElems(v: Body, n: nat, i: nat, inp: Input): (r: (seq<Body>, Input))
    requires v.VecBody? && i <= n
    ensures |r.0| == n - i
    decreases v, 0, n - i
  {
    if i == n then ([], inp)
    else
      var (first, inp1) := ReadBody(Slot(v, i), inp);
      var (rest, inp2) := ReadElems(v, n, i + 1, inp1);
      ([first] + rest, inp2)
  }

  /** The bytes the writer emits for one leaf. */
  function LeafBytes(b: Body): seq<byte>
  {
    match b
    case FloatBody(f) => LE32(f.bits)
    case IntBody(v) => IntBytes(v)
    case StrBody(s) => IntBytes(Wrap32(|s|)) + StrBytes(s)
    case EnumBody(e, _) => IntBytes(ToSigned(e))
    case _ => []
  }

  function WriteBody(b: Body): seq<byte>
    decreases b, 1, 0
  {
    match b
    case ObjBody(items) => WriteItems(items)
    case VecBody(elems, _) => IntBytes(VisitedLength(elems)) + WriteElems(b, 0)
    case _ => LeafBytes(b)
  }

  function WriteItems(items: seq<Item>): seq<byte>
    decreases items, 0, 0
  {
    if items == [] then [] else WriteItem(items[0]) + WriteItems(items[1..])
  }

  function WriteItem(it: Item): seq<byte>
    decreases it, 0, 0
  {
    match it
    case Field(_, c) => WriteBody(c)
    case Comment(_) => []
  }

  function WriteElems(v: Body, i: nat): seq<byte>
    requires v.VecBody?
    decreases v, 0, |v.elems| - i
  {
    if i >= |v.elems| then [] else WriteBody(v.elems[i]) + WriteElems(v, i + 1)
  }

  function LeavesBytes(leaves: seq<Leaf>): seq<byte>
  {
    if leaves == [] then [] else LeafBytes(leaves[0].value) + LeavesBytes(leaves[1..])
  }

  lemma {:induction false} LeavesBytesAppend(a: seq<Leaf>, b: seq<Leaf>)
    ensures LeavesBytes(a + b) == LeavesBytes(a) + LeavesBytes(b)
  {
    if a == [] {
      assert a + b == b;
    } else {
      assert (a + b)[0] == a[0];
      assert (a + b)[1..] == a[1..] + b;
      LeavesBytesAppend(a[1..], b);
    }
  }

  /**
    The file holds exactly the leaves' bytes in visiting order, for any
    address the value is visited at: nothing marks objects or comments.
   */
  lemma {:induction false} WriteBodyIsLeaves(address: Str, name: Str, b: Body)
    ensures WriteBody(b) == LeavesBytes(Leaves(address, name, b))
    decreases b, 1, 0
  {
    match b
    case ObjBody(items) => WriteItemsIsLeaves(Enter(address, name), items);
    case VecBody(elems, _) =>
      var len := Leaf(Enter(address, name) + "length", IntBody(VisitedLength(elems)), true);
      LeavesBytesAppend([len], ElemsLeaves(Enter(address, name), b, |elems|, 0));
      WriteElemsIsLeaves(Enter(address, name), b, 0);
    case _ =>
  }

  lemma {:induction false} WriteItemsIsLeaves(address: Str, items: seq<Item>)
    ensures WriteItems(items) == LeavesBytes(ItemsLeaves(address, items))
    decreases items, 0, 0
  {
    if items != [] {
      WriteItemsIsLeaves(address, items[1..]);
      WriteItemIsLeaves(address, items[0]);
      LeavesBytesAppend(ItemLeaves(address, items[0]), ItemsLeaves(address, items[1..]));
    }
  }

  lemma {:induction false} WriteItemIsLeaves(address: Str, it: Item)
    ensures WriteItem(it) == LeavesBytes(ItemLeaves(address, it))
    decreases it, 0, 0
  {
    if it.Field? {
      WriteBodyIsLeaves(address, it.name, it.body);
    }
  }

  lemma {:induction false} WriteElemsIsLeaves(address: Str, v: Body, i: nat)
    requires v.VecBody? && i <= |v.elems|
    ensures WriteElems(v, i) == LeavesBytes(ElemsLeaves(address, v, |v.elems|, i))
    decreases v, 0, |v.elems| - i
  {
    if i < |v.elems| {
      WriteBodyIsLeaves(address, IndexName(i), v.elems[i]);
      LeavesBytesAppend(Leaves(address, IndexName(i), v.elems[i]), ElemsLeaves(address, v, |v.elems|, i + 1));
      WriteElemsIsLeaves(address, v, i + 1);
    }
  }

  lemma ReadBytesWritten(buf: seq<byte>, b: seq<byte>, rest: seq<byte>)
    requires |buf| == |b|
    ensures ReadBytes(buf, Reading(b + rest)) == (b, Reading(rest))
  {
    assert (b + rest)[..|b|] == b;
    assert (b + rest)[|b|..] == rest;
  }

  lemma ReadIntWritten(v0: int32, v: int32, rest: seq<byte>)
    ensures ReadInt(v0, Reading(IntBytes(v) + rest)) == (v, Reading(rest))
  {
    ReadBytesWritten(IntBytes(v0), IntBytes(v), rest);
    IntBytesRoundTrip(v);
  }

  lemma ReadStrWritten(s0: Str, s: Str, rest: seq<byte>)
    requires |s| < TWO31
    ensures ReadStr(s0, Reading(LeafBytes(StrBody(s)) + rest)) == (s, Reading(rest))
  {
    var mid := StrBytes(s) + rest;
    assert IntBytes(Wrap32(|s|)) + StrBytes(s) + rest == IntBytes(|s|) + mid;
    ReadIntWritten(Wrap32(|s0|), |s|, mid);
    ReadBytesWritten(StrBytes(ResizedStr(s0, |s|)), StrBytes(s), rest);
    StrBytesRoundTrip(s);
  }

  /**
    Restoring what was saved: reading the bytes written for b into any
    variable of the same shape gives back b and leaves the input just after
    them.
   */
  lemma {:induction false} ReadWrittenBody(b0: Body, b: Body, rest: seq<byte>)
    requires WF(b0) && WF(b) && Erase(b0) == Erase(b)
    ensures ReadBody(b0, Reading(WriteBody(b) + rest)) == (b, Reading(rest))
    decreases b, 1, 0
  {
    match b
    case FloatBody(f) =>
      ReadBytesWritten(LE32(b0.f.bits), LE32(f.bits), rest);
      LE32RoundTrip(f.bits);
    case IntBody(v) => ReadIntWritten(b0.i, v, rest);
    case StrBody(s) => ReadStrWritten(b0.s, s, rest);
    case EnumBody(e, _) =>
      ReadIntWritten(ToSigned(b0.e), ToSigned(e), rest);
      UnsignedSignedRoundTrip(e, 0);
    case ObjBody(items) =>
      assert EraseItems(b0.items) == EraseItems(items);
      ReadWrittenItems(b0.items, items, rest);
    case VecBody(elems, blank) =>
      var mid := WriteElems(b, 0) + rest;
      assert WriteBody(b) + rest == IntBytes(|elems|) + mid;
      ReadIntWritten(VisitedLength(b0.elems), |elems|, mid);
      ReadWrittenElems(b0, b, 0, rest);
      assert elems[0..] == elems;
  }

  lemma {:induction false} ReadWrittenItems(items0: seq<Item>, items: seq<Item>, rest: seq<byte>)
    requires WFItems(items0) && WFItems(items) && EraseItems(items0) == EraseItems(items)
    ensures ReadItems(items0, Reading(WriteItems(items) + rest)) == (items, Reading(rest))
    decreases items, 0, 0
  {
    if items != [] {
      assert items0 == [items0[0]] + items0[1..] && items == [items[0]] + items[1..];
      ItemsCons("", items0[0], items0[1..]);
      ItemsCons("", items[0], items[1..]);
      var mid := WriteItems(items[1..]) + rest;
      Assoc(WriteItem(items[0]), WriteItems(items[1..]), rest);
      ReadWrittenItem(items0[0], items[0], mid);
      ReadWrittenItems(items0[1..], items[1..], rest);
    } else {
      assert |items0| == |EraseItems(items0)|;
      assert WriteItems(items) + rest == rest;
    }
  }

  lemma {:induction false} ReadWrittenItem(it0: Item, it: Item, rest: seq<byte>)
    requires (it0.Field? ==> WF(it0.body)) && (it.Field? ==> WF(it.body)) && EraseItem(it0) == EraseItem(it)
    ensures ReadItem(it0, Reading(WriteItem(it) + rest)) == (it, Reading(rest))
    decreases it, 0, 0
  {
    if it.Field? {
      assert it0.Field? && it0.name == it.name;
      ReadWrittenBody(it0.body, it.body, rest);
    } else {
      assert it0 == it;
      assert WriteItem(it) + rest == rest;
    }
  }

  lemma {:induction false} ReadWrittenElems(v0: Body, v: Body, i: nat, rest: seq<byte>)
    requires v0.VecBody? && v.VecBody? && WF(v0) && WF(v) && v0.blank == v.blank
    requires i <= |v.elems|
    ensures ReadElems(v0, |v.elems|, i, Reading(WriteElems(v, i) + rest)) == (v.elems[i..], Reading(rest))
    decreases v, 0, |v.elems| - i
  {
    if i < |v.elems| {
      var mid := WriteElems(v, i + 1) + rest;
      Assoc(WriteBody(v.elems[i]), WriteElems(v, i + 1), rest);
      assert WF(Slot(v0, i)) && Erase(Slot(v0, i)) == Erase(v.elems[i]) by {
        assert WF(v.elems[i]) && Erase(v.elems[i]) == Erase(v.blank);
      }
      ReadWrittenBody(Slot(v0, i), v.elems[i], mid);
      ReadWrittenElems(v0, v, i + 1, rest);
      assert v.elems[i..] == [v.elems[i]] + v.elems[i + 1..];
    } else {
      assert WriteElems(v, i) + rest == rest;
      assert v.elems[i..] == [];
    }
  }

  /** A reader whose stream has failed (a missing or exhausted file) changes nothing. */
  lemma {:induction false} ReadFailedBody(b: Body)
    requires WF(b)
    ensures ReadBody(b, Failed) == (b, Failed)
    decreases b, 1, 0
  {
    match b
    case FloatBody(f) => LE32RoundTrip(f.bits);
    case IntBody(v) => IntBytesRoundTrip(v);
    case StrBody(s) =>
      IntBytesRoundTrip(|s|);
      assert ResizedStr(s, |s|) == s;
      StrBytesRoundTrip(s);
    case EnumBody(e, _) =>
      IntBytesRoundTrip(ToSigned(e));
      UnsignedSignedRoundTrip(e, 0);
    case ObjBody(items) => ReadFailedItems(items);
    case VecBody(elems, _) =>
      IntBytesRoundTrip(|elems|);
      ReadFailedElems(b, 0);
      assert elems[0..] == elems;
  }

  lemma {:induction false} ReadFailedItems(items: seq<Item>)
    requires WFItems(items)
    ensures ReadItems(items, Failed) == (items, Failed)
    decreases items, 0, 0
  {
    if items != [] {
      if items[0].Field? {
        ReadFailedBody(items[0].body);
      }
      ReadFailedItems(items[1..]);
      assert items == [items[0]] + items[1..];
    }
  }

  lemma {:induction false} ReadFailedElems(v: Body, i: nat)
    requires v.VecBody? && WF(v) && i <= |v.elems|
    ensures ReadElems(v, |v.elems|, i, Failed) == (v.elems[i..], Failed)
    decreases v, 0, |v.elems| - i
  {
    if i < |v.elems| {
      assert Slot(v, i) == v.elems[i];
      ReadFailedBody(v.elems[i]);
      ReadFailedElems(v, i + 1);
      assert ReadElems(v, |v.elems|, i, Failed) == ([v.elems[i]] + v.elems[i + 1..], Failed);
      assert v.elems[i..] == [v.elems[i]] + v.elems[i + 1..];
    } else {
      assert v.elems[i..] == [];
    }
  }

  /**
    Reading keeps the shape of every variable and leaves only values a
    running program can hold: each length read from the file is an int.
   */
  lemma {:induction false} ReadShapeBody(b: Body, inp: Input)
    requires WF(b)
    ensures var r := ReadBody(b, inp); WF(r.0) && Erase(r.0) == Erase(b)
    decreases b, 2, 0
  {
    if !inp.Aborted? {
      match b
      case ObjBody(items) => ReadShapeItems(items, inp);
      case VecBody(_, _) => ReadShapeVec(b, inp);
      case _ =>
    }
  }

  lemma {:induction false} ReadShapeVec(v: Body, inp: Input)
    requires v.VecBody? && WF(v)
    ensures var r := ReadVec(v, inp); WF(r.0) && Erase(r.0) == Erase(v)
    decreases v, 1, 0
  {
    var (len, inp1) := ReadInt(VisitedLength(v.elems), inp);
    if len >= 0 {
      ReadShapeElems(v, len, 0, inp1);
      var x := ReadElems(v, len, 0, inp1).0;
      assert forall k :: 0 <= k < |x| ==> WF(x[k]) && Erase(x[k]) == Erase(v.blank);
    }
  }

  lemma {:induction false} ReadShapeItems(items: seq<Item>, inp: Input)
    requires WFItems(items)
    ensures var r := ReadItems(items, inp); WFItems(r.0) && EraseItems(r.0) == EraseItems(items)
    decreases items, 0, 0
  {
    if items != [] {
      assert items == [items[0]] + items[1..];
      ItemsCons("", items[0], items[1..]);
      ReadShapeItem(items[0], inp);
      var (first, inp1) := ReadItem(items[0], inp);
      ReadShapeItems(items[1..], inp1);
      var rest := ReadItems(items[1..], inp1).0;
      ItemsCons("", first, rest);
    }
  }

  lemma {:induction false} ReadShapeItem(it: Item, inp: Input)
    requires it.Field? ==> WF(it.body)
    ensures var r := ReadItem(it, inp); (r.0.Field? ==> WF(r.0.body)) && EraseItem(r.0) == EraseItem(it)
    decreases it, 0, 0
  {
    match it
    case Field(_, c) => ReadShapeBody(c, inp);
    case Comment(_) =>
  }

  lemma {:induction false} ReadShapeElems(v: Body, n: nat, i: nat, inp: Input)
    requires v.VecBody? && WF(v) && i <= n
    ensures forall j :: 0 <= j < n - i ==>
      WF(ReadElems(v, n, i, inp).0[j]) && Erase(ReadElems(v, n, i, inp).0[j]) == Erase(v.blank)
    decreases v, 0, n - i
  {
    if i < n {
      if i < |v.elems| {
        ReadShapeBody(v.elems[i], inp);
        assert Erase(v.elems[i]) == Erase(v.blank);
      } else {
        ReadShapeBody(v.blank, inp);
      }
      var a := ReadBody(Slot(v, i), inp);
      ReadShapeElems(v, n, i + 1, a.1);
      var r := ReadElems(v, n, i, inp);
      var rest := ReadElems(v, n, i + 1, a.1).0;
      assert r.0 == [a.0] + rest;
      forall j | 0 < j < n - i
        ensures WF(r.0[j]) && Erase(r.0[j]) == Erase(v.blank)
      {
        assert r.0[j] == rest[j - 1];
      }
    }
  }


  /**
    `pup_to_binary_file`: `out` is everything written to its std::ostream.
    PupNamed is the generic `pup(p, name, value)` of webconfig.h with this
    visitor's leaf methods; object boundaries write nothing.
   */
  class BinaryWriter {
    var out: seq<byte>

    constructor ()
      ensures out == []
    {
      out := [];
    }

    method PupFloat(value: Float32)
      modifies this
      ensures out == old(out) + LE32(value.bits)
    {
      out := out + LE32(value.bits);
    }

    method PupInt(value: int32)
      modifies this
      ensures out == old(out) + IntBytes(value)
    {
      out := out + IntBytes(value);
    }

    method PupString(value: Str)
      modifies this
      ensures out == old(out) + LeafBytes(StrBody(value))
    {
      var len := Wrap32(|value|);
      out := out + IntBytes(len);
      out := out + StrBytes(value);
    }

    /** The inherited enum method: the value goes through an int. */
    method PupEnum(value: uint32)
      modifies this
      ensures out == old(out) + IntBytes(ToSigned(value))
    {
      PupInt(ToSigned(value));
    }

    method PupNamed(b: Body)
      requires WF(b)
      modifies this
      ensures out == old(out) + WriteBody(b)
      decreases b, 1
    {
      match b
      case FloatBody(f) => PupFloat(f);
      case IntBody(v) => PupInt(v);
      case StrBody(s) => PupString(s);
      case EnumBody(e, _) => PupEnum(e);
      case ObjBody(items) => PupItems(items);
      case VecBody(elems, _) =>
        var length := VisitedLength(elems);
        PupInt(length);
        for i := 0 to length
          invariant old(out) + WriteBody(b) == out + WriteElems(b, i)
        {
          Assoc(out, WriteBody(elems[i]), WriteElems(b, i + 1));
          PupNamed(elems[i]);
        }
    }

    /** An object's own pup function: its statements in order. */
    method PupItems(items: seq<Item>)
      requires WFItems(items)
      modifies this
      ensures out == old(out) + WriteItems(items)
      decreases items, 0
    {
      for k := 0 to |items|
        invariant old(out) + WriteItems(items) == out + WriteItems(items[k..])
      {
        assert items[k..][1..] == items[k + 1..];
        assert WriteItems(items[k..]) == WriteItem(items[k]) + WriteItems(items[k + 1..]);
        Assoc(out, WriteItem(items[k]), WriteItems(items[k + 1..]));
        if items[k].Field? {
          PupNamed(items[k].body);
        }
      }
      assert items[|items|..] == [];
    }
  }

  /**
    `pup_from_binary_file`: `input` is the state of its std::istream.  A
    missing file is a stream that has failed before the first read.
   */
  class BinaryReader {
    var input: Input

    constructor (file: Option<seq<byte>>)
      ensures input == if file.Some? then Reading(file.value) else Failed
    {
      input := if file.Some? then Reading(file.value) else Failed;
    }

    method Read(buf: seq<byte>) returns (r: seq<byte>)
      modifies this
      ensures (r, input) == ReadBytes(buf, old(input))
    {
      r := buf;
      if input.Reading? {
        var rest := input.rest;
        if |buf| <= |rest| {
          r := rest[..|buf|];
          input := Reading(rest[|buf|..]);
        } else {
          r := rest + buf[|rest|..];
          input := Failed;
        }
      }
    }

    method PupFloat(value: Float32) returns (r: Float32)
      modifies this
      ensures (FloatBody(r), input) == ReadBody(FloatBody(value), old(input))
    {
      r := value;
      if !input.Aborted? {
        var b := Read(LE32(value.bits));
        r := Float32(FromLE32(b));
      }
    }

    method PupInt(value: int32) returns (r: int32)
      modifies this
      ensures (r, input) == ReadInt(value, old(input))
    {
      var b := Read(IntBytes(value));
      r := BytesInt(b);
    }

    method PupString(value: Str) returns (r: Str)
      modifies this
      ensures (r, input) == ReadStr(value, old(input))
    {
      var len := PupInt(Wrap32(|value|));
      if len < 0 {
        input := Aborted;
        return value;
      }
      var b := Read(StrBytes(ResizedStr(value, len)));
      r := BytesStr(b);
    }

    /** The inherited enum method: read into an int, then store it back. */
    method PupEnum(value: uint32) returns (r: uint32)
      modifies this
      ensures (r, input) == (var (x, i) := ReadInt(ToSigned(value), old(input)); (ToUnsigned(x), i))
    {
      var v := PupInt(ToSigned(value));
      r := ToUnsigned(v);
    }

    method PupNamed(b: Body) returns (r: Body)
      modifies this
      ensures (r, input) == ReadBody(b, old(input))
      decreases b, 2
    {
      if input.Aborted? {
        return b;
      }
      match b
      case FloatBody(f) =>
        var x := PupFloat(f);
        r := FloatBody(x);
      case IntBody(v) =>
        var x := PupInt(v);
        r := IntBody(x);
      case StrBody(s) =>
        var x := PupString(s);
        r := StrBody(x);
      case EnumBody(e, options) =>
        var x := PupEnum(e);
        r := EnumBody(x, options);
      case ObjBody(items) =>
        var x := PupItems(items);
        r := ObjBody(x);
      case VecBody(_, _) =>
        r := PupVector(b);
    }

    /** The vector pup: `length`, the resize, then each element under its index. */
    method PupVector(b: Body) returns (r: Body)
      requires b.VecBody?
      modifies this
      ensures (r, input) == ReadVec(b, old(input))
      decreases b, 1
    {
      var elems, blank := b.elems, b.blank;
      var length := PupInt(VisitedLength(elems));
      if length < 0 {
        input := Aborted;
        return b;
      }
      var v := Resized(elems, blank, length);
      ghost var start := input;
      var done: seq<Body> := [];
      assert ReadElems(b, length, 0, start).0 == done + ReadElems(b, length, 0, input).0;
      for i := 0 to length
        invariant |done| == i
        invariant ReadElems(b, length, 0, start).0 == done + ReadElems(b, length, i, input).0
        invariant ReadElems(b, length, 0, start).1 == ReadElems(b, length, i, input).1
      {
        assert v[i] == Slot(b, i);
        ghost var a := ReadBody(Slot(b, i), input);
        ghost var rest := ReadElems(b, length, i + 1, a.1);
        assert ReadElems(b, length, i, input) == ([a.0] + rest.0, rest.1);
        var x := PupNamed(v[i]);
        Assoc(done, [x], rest.0);
        done := done + [x];
      }
      assert ReadElems(b, length, length, input) == ([], input);
      assert done == ReadElems(b, length, 0, start).0;
      r := VecBody(done, blank);
    }

    /** One statement of an object's pup function. */
    method PupItem(it: Item) returns (r: Item)
      modifies this
      ensures (r, input) == ReadItem(it, old(input))
      decreases it, 0
    {
      r := it;
      if it.Field? {
        var c' := PupNamed(it.body);
        r := Field(it.name, c');
      }
    }

    method PupItems(items: seq<Item>) returns (r: seq<Item>)
      modifies this
      ensures (r, input) == ReadItems(items, old(input))
      decreases items, 0
    {
      r := [];
      assert items[0..] == items;
      assert ReadItems(items, old(input)).0 == r + ReadItems(items[0..], input).0;
      for k := 0 to |items|
        invariant |r| == k
        invariant ReadItems(items, old(input)).0 == r + ReadItems(items[k..], input).0
        invariant ReadItems(items, old(input)).1 == ReadItems(items[k..], input).1
      {
        assert items[k..][1..] == items[k + 1..];
        ghost var a := ReadItem(items[k], input);
        ghost var rest := ReadItems(items[k + 1..], a.1);
        assert ReadItems(items[k..], input) == ([a.0] + rest.0, rest.1);
        var x := PupItem(items[k]);
        Assoc(r, [x], rest.0);
        r := r + [x];
      }
      assert items[|items|..] == [];
      assert r + ReadItems(items[|items|..], input).0 == r;
    }
  }
}
