/**
  `pup_to_HTML_form`: the editing page.  Every leaf gets a form of its own,
  inside a coloured DIV, that submits `fullname=value` back to the editor;
  every object gets a heading and an indented DIV around its fields; a
  comment is copied into the page as it is.

  The page is modelled in two steps: the traversal yields a list of chunks
  (one per form, object bracket or comment), and `Text` spells each chunk
  out exactly as the C++ string operations do.
 */
module HtmlFormPup {
  import opened Ints
  import opened WebStrings
  import opened FieldTree

  datatype OptionTag = OptionTag(value: Str, selected: bool, caption: Str)

  /** The input element of a field's form. */
  datatype Control =
    | TextInput(value: Str)
    | TextArea(rows: int, text: Str)
    | Select(options: seq<OptionTag>)

  /**
    A chunk of the page.  A form and an object heading each sit in a DIV
    of their own, whose colour follows from the counters `div` that
    `itemdiv` leaves behind.
   */
  datatype Chunk =
    | FieldForm(div: Look, shortname: Str, fullname: Str, control: Control)
    | ObjectOpen(div: Look, address: Str, shortname: Str)
    | ObjectClose
    | CommentText(text: Str)

  /** The counters of the visitor: object nesting depth and DIVs made so far. */
  datatype Look = Look(indent: int, divcount: int)

  /** A grey `#x0x0x0`. */
  function Gray(x: Char8): (c: Str)
    ensures |c| == 7
  {
    ['#', x, '0', x, '0', x, '0']
  }

  /** `getobjectcolor`: darker for deeper objects, the same from depth 3 on. */
  function ObjectColor(indent: int): (c: Str)
    ensures |c| == 7
  {
    if indent == 0 then Gray('f')
    else if indent == 1 then Gray('d')
    else if indent == 2 then Gray('b')
    else Gray('9')
  }

  /** The colour of the DIV that `itemdiv` makes once the counters are `div`. */
  function DivColor(div: Look): (c: Str)
    ensures |c| == 7
  {
    var base := ObjectColor(div.indent);
    if div.divcount % 2 != 0 then base[6 := '9'] else base[2 := '9']
  }

  /** The fixed pieces of markup the visitor writes around the values. */
  datatype Markup = Markup(
    divStyle: Str, divStyleEnd: Str, formAction: Str, attrEnd: Str, endForm: Str,
    optionOpen: Str, optionValueEnd: Str, selected: Str, tagEnd: Str, optionClose: Str,
    inputOpen: Str, valueAttr: Str, inputClose: Str,
    areaName: Str, areaRows: Str, areaClose: Str,
    selectOpen: Str, selectOpenEnd: Str, selectClose: Str,
    boldOpen: Str, boldClose: Str, indented: Str, closeText: Str)

  // The markup of webconfig.cpp, piece by piece.
  const DivStyle: Str := "<DIV STYLE=\"background-color:"
  const DivStyleEnd: Str := "\">\n\t"
  const FormAction: Str := "<FORM ACTION=\"/"
  const AttrEnd: Str := "\">"
  const EndForm: Str := "<INPUT type=\"submit\" value=\"Go!\"/>" + "</FORM></DIV>\n\n"
  const OptionOpen: Str := "<option value=\""
  const OptionValueEnd: Str := "\" "
  const SelectedAttr: Str := "selected=\"selected\""
  const TagEnd: Str := ">"
  const OptionClose: Str := "</option>\n"
  const InputOpen: Str := ": <INPUT type=\"text\" name=\""
  const ValueAttr: Str := "\" value=\""
  const InputClose: Str := "\" />"
  const AreaName: Str := ":<br>\n" + "<textarea name=\""
  const AreaRows: Str := "\" cols=\"85\" rows=\""
  const AreaClose: Str := "</textarea><br>"
  const SelectOpen: Str := ": <SELECT name=\""
  const SelectOpenEnd: Str := "\" >\n"
  const SelectClose: Str := "</SELECT>"
  const BoldOpen: Str := "<B>"
  const BoldClose: Str := "</B> {"
  const Indented: Str := "<DIV STYLE=\"margin-left:1em; " + "padding-left:1em;\">\n"
  const CloseText: Str := "</DIV>}<br>\n\n" + "</DIV><br>"

  const WebconfigMarkup: Markup := Markup(
    DivStyle, DivStyleEnd, FormAction, AttrEnd, EndForm,
    OptionOpen, OptionValueEnd, SelectedAttr, TagEnd, OptionClose,
    InputOpen, ValueAttr, InputClose,
    AreaName, AreaRows, AreaClose,
    SelectOpen, SelectOpenEnd, SelectClose,
    BoldOpen, BoldClose, Indented, CloseText)

  /** `itemdiv`'s markup. */
  function ItemDiv(m: Markup, div: Look): Str
  {
    m.divStyle + DivColor(div) + m.divStyleEnd
  }

  function StartForm(m: Markup, formName: Str, div: Look): Str
  {
    ItemDiv(m, div) + m.formAction + formName + m.attrEnd
  }

  function OptionText(m: Markup, o: OptionTag): Str
  {
    (m.optionOpen + o.value + m.optionValueEnd)
      + (if o.selected then m.selected else [])
      + (m.tagEnd + o.caption + m.optionClose)
  }

  function OptionsText(m: Markup, os: seq<OptionTag>): Str
  {
    if os == [] then [] else OptionText(m, os[0]) + OptionsText(m, os[1..])
  }

  lemma {:induction false} OptionsTextSnoc(m: Markup, os: seq<OptionTag>, o: OptionTag)
    ensures OptionsText(m, os + [o]) == OptionsText(m, os) + OptionText(m, o)
  {
    if os == [] {
      assert os + [o] == [o];
      assert [o][1..] == [];
    } else {
      assert (os + [o])[1..] == os[1..] + [o];
      OptionsTextSnoc(m, os[1..], o);
      Assoc(OptionText(m, os[0]), OptionsText(m, os[1..]), OptionText(m, o));
    }
  }

  /** `inner`: a one-line text input holding the current value. */
  function InputText(m: Markup, formName: Str, div: Look, sn: Str, fn: Str, v: Str): Str
  {
    StartForm(m, formName, div) + sn + m.inputOpen + fn + m.valueAttr + v + m.inputClose + m.endForm
  }

  /** A string with newlines: a textarea `rows` lines high. */
  function AreaText(m: Markup, formName: Str, div: Look, sn: Str, fn: Str, rows: int, t: Str): Str
  {
    StartForm(m, formName, div) + sn + m.areaName + fn + m.areaRows + Itos(rows) + m.attrEnd + t + m.areaClose + m.endForm
  }

  function SelectText(m: Markup, formName: Str, div: Look, sn: Str, fn: Str, os: seq<OptionTag>): Str
  {
    (StartForm(m, formName, div) + sn + m.selectOpen + fn + m.selectOpenEnd) + OptionsText(m, os)
      + (m.selectClose + m.endForm)
  }

  /** What `pup_objectbegin` appends: a DIV, the heading, and the indented DIV of the fields. */
  function OpenText(m: Markup, div: Look, address: Str, sn: Str): Str
  {
    ItemDiv(m, div) + address + m.boldOpen + sn + m.boldClose + m.indented
  }

  /** The HTML of one chunk. */
  function Text(m: Markup, formName: Str, c: Chunk): Str
  {
    match c
    case FieldForm(div, sn, fn, TextInput(v)) => InputText(m, formName, div, sn, fn, v)
    case FieldForm(div, sn, fn, TextArea(rows, t)) => AreaText(m, formName, div, sn, fn, rows, t)
    case FieldForm(div, sn, fn, Select(os)) => SelectText(m, formName, div, sn, fn, os)
    case ObjectOpen(div, address, sn) => OpenText(m, div, address, sn)
    case ObjectClose => m.closeText
    case CommentText(t) => t
  }

  function Page(m: Markup, formName: Str, cs: seq<Chunk>): Str
  {
    if cs == [] then [] else Text(m, formName, cs[0]) + Page(m, formName, cs[1..])
  }

  lemma {:induction false} PageAppend(m: Markup, formName: Str, a: seq<Chunk>, b: seq<Chunk>)
    ensures Page(m, formName, a + b) == Page(m, formName, a) + Page(m, formName, b)
  {
    if a == [] {
      assert a + b == b;
    } else {
      assert (a + b)[0] == a[0];
      assert (a + b)[1..] == a[1..] + b;
      PageAppend(m, formName, a[1..], b);
      Assoc(Text(m, formName, a[0]), Page(m, formName, a[1..]), Page(m, formName, b));
    }
  }

  /** The options of an enum's SELECT: the current value is the selected one. */
  function EnumOptions(e: uint32, options: seq<EnumOption>): (r: seq<OptionTag>)
    ensures |r| == |options|
    ensures forall k :: 0 <= k < |options| ==>
      r[k] == OptionTag(Itos(ToSigned(options[k].value)), options[k].value == e, options[k].caption)
  {
    seq(|options|, k requires 0 <= k < |options| =>
      OptionTag(Itos(ToSigned(options[k].value)), options[k].value == e, options[k].caption))
  }

  /**
    The control that shows a leaf's value.  A float is shown by `%f`, which
    the model takes as the parameter `ftext`.  A one-line string reaches
    `inner` through `c_str()`, so its text input stops at the first NUL; a
    textarea is built from the whole escaped string.
   */
  function ControlFor(ftext: Float32 -> Str, b: Body): Control
  {
    match b
    case FloatBody(f) => TextInput(ftext(f))
    case IntBody(i) => TextInput(Itos(i))
    case StrBody(s) =>
      if Newlines(s) == 0 then TextInput(CString(Escaped(s))) else TextArea(Newlines(s) + 2, Escaped(s))
    case EnumBody(e, options) => Select(EnumOptions(e, options))
    case _ => TextInput([])
  }

  /**
    A one-line string's text input shows the escaped characters before its
    first NUL, and the whole escaped string when it holds none.
   */
  lemma OneLineString(ftext: Float32 -> Str, s: Str)
    requires Newlines(s) == 0
    ensures ControlFor(ftext, StrBody(s)) == TextInput(Escaped(CString(s)))
    ensures '\0' !in s ==> ControlFor(ftext, StrBody(s)) == TextInput(Escaped(s))
  {
    CStringEscaped(s);
  }

  /** The value "a", NUL, "b" (which `unescape_URL` makes of `a%00b`) is shown as "a". */
  lemma OneLineStringWithNul(ftext: Float32 -> Str)
    ensures ControlFor(ftext, StrBody(['a', '\0', 'b'])) == TextInput(['a'])
  {
    var s: Str := ['a', '\0', 'b'];
    var a: Str := ['a'];
    assert Newlines(s) == 0 by { NewlinesZero(s); }
    assert CString(s) == a by { assert s[1..][0] == '\0'; assert CString(s[1..]) == []; }
    assert Escaped(a) == a by { assert a[..0] == []; }
    CStringEscaped(s);
  }

  /** The form chunk for a leaf, drawn with the next DIV. */
  function LeafForm(ftext: Float32 -> Str, address: Str, name: Str, b: Body, st: Look): (r: (seq<Chunk>, Look))
  {
    ([FieldForm(Look(st.indent, st.divcount + 1), name, address + name, ControlFor(ftext, b))],
     Look(st.indent, st.divcount + 1))
  }

  function RenderBody(ftext: Float32 -> Str, address: Str, name: Str, b: Body, st: Look): (r: (seq<Chunk>, Look))
    decreases b, 1, 0
  {
    match b
    case ObjBody(items) =>
      var open := ObjectOpen(Look(st.indent, st.divcount + 1), address, name);
      var (cs, st1) := RenderItems(ftext, Enter(address, name), items, Look(st.indent + 1, st.divcount + 1));
      ([open] + cs + [ObjectClose], Look(st1.indent - 1, st1.divcount))
    case VecBody(_, _) =>
      var open := ObjectOpen(Look(st.indent, st.divcount + 1), address, name);
      var (cs, st1) := RenderVector(ftext, Enter(address, name), b, Look(st.indent + 1, st.divcount + 1));
      ([open] + cs + [ObjectClose], Look(st1.indent - 1, st1.divcount))
    case _ => LeafForm(ftext, address, name, b, st)
  }

  /** The vector pup inside the bracket: the `length` field, then the elements. */
  function RenderVector(ftext: Float32 -> Str, address: Str, v: Body, st: Look): (r: (seq<Chunk>, Look))
    requires v.VecBody?
    decreases v, 0, |v.elems| + 1
  {
    var (lc, st1) := LeafForm(ftext, address, "length", IntBody(VisitedLength(v.elems)), st);
    var (cs, st2) := RenderElems(ftext, address, v, 0, st1);
    (lc + cs, st2)
  }

  function RenderItems(ftext: Float32 -> Str, address: Str, items: seq<Item>, st: Look): (r: (seq<Chunk>, Look))
    decreases items, 1, 0
  {
    if items == [] then ([], st)
    else
      var (a, st1) := RenderItem(ftext, address, items[0], st);
      var (b, st2) := RenderItems(ftext, address, items[1..], st1);
      (a + b, st2)
  }

  function RenderItem(ftext: Float32 -> Str, address: Str, it: Item, st: Look): (r: (seq<Chunk>, Look))
    decreases it, 0, 0
  {
    match it
    case Field(n, c) => RenderBody(ftext, address, n, c, st)
    case Comment(t) => ([CommentText(t)], st)
  }

  function RenderElems(ftext: Float32 -> Str, address: Str, v: Body, i: nat, st: Look): (r: (seq<Chunk>, Look))
    requires v.VecBody?
    decreases v, 0, |v.elems| - i
  {
    if i >= |v.elems| then ([], st)
    else
      var (a, st1) := RenderBody(ftext, address, IndexName(i), v.elems[i], st);
      var (b, st2) := RenderElems(ftext, address, v, i + 1, st1);
      (a + b, st2)
  }

  // ---------------------------------------------------------------------
  // One form per leaf, in visiting order, showing the leaf's value.

  /** The field forms of a page: each one's name attribute and control. */
  function Forms(cs: seq<Chunk>): seq<(Str, Control)>
  {
    if cs == [] then []
    else (if cs[0].FieldForm? then [(cs[0].fullname, cs[0].control)] else []) + Forms(cs[1..])
  }

  lemma {:induction false} FormsAppend(a: seq<Chunk>, b: seq<Chunk>)
    ensures Forms(a + b) == Forms(a) + Forms(b)
  {
    if a == [] {
      assert a + b == b;
    } else {
      assert (a + b)[0] == a[0];
      assert (a + b)[1..] == a[1..] + b;
      FormsAppend(a[1..], b);
    }
  }

  /** The form each leaf should get. */
  function LeafForms(ftext: Float32 -> Str, ls: seq<Leaf>): (r: seq<(Str, Control)>)
    ensures |r| == |ls|
  {
    seq(|ls|, k requires 0 <= k < |ls| => (ls[k].fullname, ControlFor(ftext, ls[k].value)))
  }

  lemma LeafFormsAppend(ftext: Float32 -> Str, a: seq<Leaf>, b: seq<Leaf>)
    ensures LeafForms(ftext, a + b) == LeafForms(ftext, a) + LeafForms(ftext, b)
  {
  }

  lemma {:induction false} RenderedForms(ftext: Float32 -> Str, address: Str, name: Str, b: Body, st: Look)
    ensures Forms(RenderBody(ftext, address, name, b, st).0) == LeafForms(ftext, Leaves(address, name, b))
    decreases b, 1, 0
  {
    var inner := Enter(address, name);
    var open := ObjectOpen(Look(st.indent, st.divcount + 1), address, name);
    var st0 := Look(st.indent + 1, st.divcount + 1);
    if b.ObjBody? {
      var cs := RenderItems(ftext, inner, b.items, st0).0;
      assert RenderBody(ftext, address, name, b, st).0 == [open] + cs + [ObjectClose];
      RenderedItemsForms(ftext, inner, b.items, st0);
      BracketForms(open, cs);
    } else if b.VecBody? {
      var cs := RenderVector(ftext, inner, b, st0).0;
      assert RenderBody(ftext, address, name, b, st).0 == [open] + cs + [ObjectClose];
      RenderedVectorForms(ftext, inner, b, st0);
      BracketForms(open, cs);
    }
  }

  /** An object heading and its closing hold no form. */
  lemma BracketForms(open: Chunk, cs: seq<Chunk>)
    requires open.ObjectOpen?
    ensures Forms([open] + cs + [ObjectClose]) == Forms(cs)
  {
    FormsAppend([open], cs);
    FormsAppend([open] + cs, [ObjectClose]);
  }

  lemma {:induction false} RenderedVectorForms(ftext: Float32 -> Str, address: Str, v: Body, st: Look)
    requires v.VecBody?
    ensures Forms(RenderVector(ftext, address, v, st).0)
      == LeafForms(ftext, [Leaf(address + "length", IntBody(VisitedLength(v.elems)), true)]
                          + ElemsLeaves(address, v, |v.elems|, 0))
    decreases v, 0, |v.elems| + 1
  {
    var (lc, st1) := LeafForm(ftext, address, "length", IntBody(VisitedLength(v.elems)), st);
    var (cs, st2) := RenderElems(ftext, address, v, 0, st1);
    RenderedElemsForms(ftext, address, v, 0, st1);
    FormsAppend(lc, cs);
    var len := Leaf(address + "length", IntBody(VisitedLength(v.elems)), true);
    LeafFormsAppend(ftext, [len], ElemsLeaves(address, v, |v.elems|, 0));
  }

  lemma {:induction false} RenderedItemsForms(ftext: Float32 -> Str, address: Str, items: seq<Item>, st: Look)
    ensures Forms(RenderItems(ftext, address, items, st).0) == LeafForms(ftext, ItemsLeaves(address, items))
    decreases items, 1, 0
  {
    if items != [] {
      var (a, st1) := RenderItem(ftext, address, items[0], st);
      if items[0].Field? {
        RenderedForms(ftext, address, items[0].name, items[0].body, st);
      }
      RenderedItemsForms(ftext, address, items[1..], st1);
      FormsAppend(a, RenderItems(ftext, address, items[1..], st1).0);
      LeafFormsAppend(ftext, ItemLeaves(address, items[0]), ItemsLeaves(address, items[1..]));
    }
  }

  lemma {:induction false} RenderedElemsForms(ftext: Float32 -> Str, address: Str, v: Body, i: nat, st: Look)
    requires v.VecBody? && i <= |v.elems|
    ensures Forms(RenderElems(ftext, address, v, i, st).0) == LeafForms(ftext, ElemsLeaves(address, v, |v.elems|, i))
    decreases v, 0, |v.elems| - i
  {
    if i < |v.elems| {
      var (a, st1) := RenderBody(ftext, address, IndexName(i), v.elems[i], st);
      RenderedForms(ftext, address, IndexName(i), v.elems[i], st);
      RenderedElemsForms(ftext, address, v, i + 1, st1);
      FormsAppend(a, RenderElems(ftext, address, v, i + 1, st1).0);
      LeafFormsAppend(ftext, Leaves(address, IndexName(i), Slot(v, i)), ElemsLeaves(address, v, |v.elems|, i + 1));
    }
  }

  // ---------------------------------------------------------------------
  // Shape of the page: object DIVs are properly nested, `indent` comes back
  // to where it was, and `divcount` counts the DIVs made.

  /**
    The object nesting depth after the chunks, starting from depth d, or None
    when a chunk closes an object that was never opened.
   */
  function Walk(cs: seq<Chunk>, d: nat): Option<nat>
  {
    if cs == [] then Some(d)
    else if cs[0].ObjectOpen? then Walk(cs[1..], d + 1)
    else if cs[0].ObjectClose? then (if d == 0 then None else Walk(cs[1..], d - 1))
    else Walk(cs[1..], d)
  }

  /** Every object DIV opened is closed, in order. */
  predicate WellNested(cs: seq<Chunk>)
  {
    Walk(cs, 0) == Some(0)
  }

  lemma {:induction false} WalkAppend(a: seq<Chunk>, b: seq<Chunk>, d: nat)
    ensures Walk(a + b, d) == match Walk(a, d) case None => None case Some(e) => Walk(b, e)
  {
    if a == [] {
      assert a + b == b;
    } else {
      assert (a + b)[0] == a[0];
      assert (a + b)[1..] == a[1..] + b;
      if a[0].ObjectOpen? {
        WalkAppend(a[1..], b, d + 1);
      } else if a[0].ObjectClose? {
        if d > 0 {
          WalkAppend(a[1..], b, d - 1);
        }
      } else {
        WalkAppend(a[1..], b, d);
      }
    }
  }

  /** The number of `itemdiv` calls the chunks took: one per form and one per object. */
  function Divs(cs: seq<Chunk>): nat
  {
    if cs == [] then 0
    else (if cs[0].FieldForm? || cs[0].ObjectOpen? then 1 else 0) + Divs(cs[1..])
  }

  lemma {:induction false} DivsAppend(a: seq<Chunk>, b: seq<Chunk>)
    ensures Divs(a + b) == Divs(a) + Divs(b)
  {
    if a == [] {
      assert a + b == b;
    } else {
      assert (a + b)[0] == a[0];
      assert (a + b)[1..] == a[1..] + b;
      DivsAppend(a[1..], b);
    }
  }

  /** The chunks of an open / fields / close bracket nest when the fields do. */
  lemma Bracket(open: Chunk, cs: seq<Chunk>, d: nat)
    requires open.ObjectOpen? && Walk(cs, d + 1) == Some(d + 1)
    ensures Walk([open] + cs + [ObjectClose], d) == Some(d)
    ensures Divs([open] + cs + [ObjectClose]) == 1 + Divs(cs)
  {
    assert ([open] + cs)[1..] == cs;
    WalkAppend([open] + cs, [ObjectClose], d);
    DivsAppend([open], cs);
    DivsAppend([open] + cs, [ObjectClose]);
  }

  lemma {:induction false} RenderShape(ftext: Float32 -> Str, address: Str, name: Str, b: Body, st: Look, d: nat)
    ensures var (cs, st1) := RenderBody(ftext, address, name, b, st);
      && st1.indent == st.indent
      && st1.divcount == st.divcount + Divs(cs)
      && Walk(cs, d) == Some(d)
    decreases b, 1, 0
  {
    var inner := Enter(address, name);
    var open := ObjectOpen(Look(st.indent, st.divcount + 1), address, name);
    var st0 := Look(st.indent + 1, st.divcount + 1);
    match b
    case ObjBody(items) =>
      var (cs, st1) := RenderItems(ftext, inner, items, st0);
      ItemsShape(ftext, inner, items, st0, d + 1);
      Bracket(open, cs, d);
    case VecBody(elems, _) =>
      var (lc, st1) := LeafForm(ftext, inner, "length", IntBody(VisitedLength(elems)), st0);
      var (cs, st2) := RenderElems(ftext, inner, b, 0, st1);
      ElemsShape(ftext, inner, b, 0, st1, d + 1);
      WalkAppend(lc, cs, d + 1);
      DivsAppend(lc, cs);
      Bracket(open, lc + cs, d);
    case _ =>
  }

  lemma {:induction false} ItemsShape(ftext: Float32 -> Str, address: Str, items: seq<Item>, st: Look, d: nat)
    ensures var (cs, st1) := RenderItems(ftext, address, items, st);
      && st1.indent == st.indent
      && st1.divcount == st.divcount + Divs(cs)
      && Walk(cs, d) == Some(d)
    decreases items, 1, 0
  {
    if items != [] {
      var (a, st1) := RenderItem(ftext, address, items[0], st);
      if items[0].Field? {
        RenderShape(ftext, address, items[0].name, items[0].body, st, d);
      }
      ItemsShape(ftext, address, items[1..], st1, d);
      WalkAppend(a, RenderItems(ftext, address, items[1..], st1).0, d);
      DivsAppend(a, RenderItems(ftext, address, items[1..], st1).0);
    }
  }

  lemma {:induction false} ElemsShape(ftext: Float32 -> Str, address: Str, v: Body, i: nat, st: Look, d: nat)
    requires v.VecBody?
    ensures var (cs, st1) := RenderElems(ftext, address, v, i, st);
      && st1.indent == st.indent
      && st1.divcount == st.divcount + Divs(cs)
      && Walk(cs, d) == Some(d)
    decreases v, 0, |v.elems| - i
  {
    if i < |v.elems| {
      var (a, st1) := RenderBody(ftext, address, IndexName(i), v.elems[i], st);
      RenderShape(ftext, address, IndexName(i), v.elems[i], st, d);
      ElemsShape(ftext, address, v, i + 1, st1, d);
      WalkAppend(a, RenderElems(ftext, address, v, i + 1, st1).0, d);
      DivsAppend(a, RenderElems(ftext, address, v, i + 1, st1).0);
    }
  }

  // ---------------------------------------------------------------------
  // The visitor itself.

  /** The page of one chunk is its text. */
  lemma PageOne(m: Markup, formName: Str, c: Chunk)
    ensures Page(m, formName, [c]) == Text(m, formName, c)
  {
    assert [c][1..] == [];
  }

  /** Appending an object bracket: its heading, its fields' page, then the closing markup. */
  lemma BracketPage(m: Markup, formName: Str, h: Str, open: Chunk, cs: seq<Chunk>)
    ensures h + Page(m, formName, [open] + cs + [ObjectClose])
      == ((h + Text(m, formName, open)) + Page(m, formName, cs)) + m.closeText
  {
    PageAppend(m, formName, [open], cs);
    PageAppend(m, formName, [open] + cs, [ObjectClose]);
    PageOne(m, formName, open);
    PageOne(m, formName, ObjectClose);
    Assoc(Text(m, formName, open), Page(m, formName, cs), m.closeText);
    Assoc(h, Text(m, formName, open), Page(m, formName, cs));
    Assoc(h + Text(m, formName, open), Page(m, formName, cs), m.closeText);
    Assoc(h, Text(m, formName, open), Page(m, formName, cs) + m.closeText);
  }

  /** A leaf's page is the one form that shows its value. */
  lemma LeafPage(m: Markup, formName: Str, ftext: Float32 -> Str, address: Str, name: Str, b: Body, st: Look)
    requires IsLeaf(b)
    ensures Page(m, formName, RenderBody(ftext, address, name, b, st).0)
      == Text(m, formName, FieldForm(Look(st.indent, st.divcount + 1), name, address + name, ControlFor(ftext, b)))
    ensures RenderBody(ftext, address, name, b, st).1 == Look(st.indent, st.divcount + 1)
  {
    PageOne(m, formName, FieldForm(Look(st.indent, st.divcount + 1), name, address + name, ControlFor(ftext, b)));
  }

  /**
    Appending the page of an object or a vector: the heading, the page of its
    fields `cs` (the fields' rendering, which leaves the counters at `st1`),
    and the closing markup.
   */
  lemma ObjectPage(m: Markup, formName: Str, h: Str, ftext: Float32 -> Str, address: Str, name: Str, b: Body, st: Look,
                   cs: seq<Chunk>, st1: Look)
    requires b.ObjBody? ==> (cs, st1) == RenderItems(ftext, Enter(address, name), b.items, Look(st.indent + 1, st.divcount + 1))
    requires b.VecBody? ==> (cs, st1) == RenderVector(ftext, Enter(address, name), b, Look(st.indent + 1, st.divcount + 1))
    requires b.ObjBody? || b.VecBody?
    ensures h + Page(m, formName, RenderBody(ftext, address, name, b, st).0)
      == ((h + Text(m, formName, ObjectOpen(Look(st.indent, st.divcount + 1), address, name))) + Page(m, formName, cs)) + m.closeText
    ensures RenderBody(ftext, address, name, b, st).1 == Look(st1.indent - 1, st1.divcount)
  {
    var open := ObjectOpen(Look(st.indent, st.divcount + 1), address, name);
    assert RenderBody(ftext, address, name, b, st) == ([open] + cs + [ObjectClose], Look(st1.indent - 1, st1.divcount));
    BracketPage(m, formName, h, open, cs);
  }

  /** `pup_to_HTML_form`: appends the page to the caller's string `html`. */
  class HtmlForm {
    var html: Str
    const formName: Str
    /** The markup the visitor writes; the constructor fixes it to webconfig.cpp's. */
    const markup: Markup
    /** `snprintf(curvalue, 100, "%f", value)`. */
    const ftext: Float32 -> Str
    var indent: int
    var divcount: int
    var address: Str
    var oldAddresses: seq<Str>

    constructor (html0: Str, formName: Str, ftext: Float32 -> Str)
      ensures html == html0 && this.formName == formName && this.ftext == ftext
      ensures markup == WebconfigMarkup
      ensures indent == 0 && divcount == 0 && address == [] && oldAddresses == []
    {
      html := html0;
      this.formName := formName;
      this.ftext := ftext;
      markup := WebconfigMarkup;
      indent := 0;
      divcount := 0;
      address := [];
      oldAddresses := [];
    }

    /** The two counters, as the rendering functions carry them. */
    function Here(): Look
      reads this
    {
      Look(indent, divcount)
    }

    method Comment(s: Str)
      modifies this
      ensures html == old(html) + Text(markup, formName, CommentText(s))
      ensures Here() == old(Here()) && address == old(address) && oldAddresses == old(oldAddresses)
    {
      html := html + s;
    }

    /** `itemdiv`: the next DIV, shaded by the parity of the DIV count. */
    method OpenItemDiv() returns (s: Str)
      modifies this
      ensures divcount == old(divcount) + 1 && s == ItemDiv(markup, Here())
      ensures html == old(html) && indent == old(indent)
      ensures address == old(address) && oldAddresses == old(oldAddresses)
    {
      divcount := divcount + 1;
      var color := ObjectColor(indent);
      if divcount % 2 != 0 {
        color := color[6 := '9'];
      } else {
        color := color[2 := '9'];
      }
      s := markup.divStyle + color + markup.divStyleEnd;
    }

    /** `startform`. */
    method OpenForm() returns (s: Str)
      modifies this
      ensures divcount == old(divcount) + 1 && s == StartForm(markup, formName, Here())
      ensures html == old(html) && indent == old(indent)
      ensures address == old(address) && oldAddresses == old(oldAddresses)
    {
      var div := OpenItemDiv();
      s := div + markup.formAction + formName + markup.attrEnd;
    }

    /** `inner`: a form with a one-line text input holding `curvalue`. */
    method Inner(shortname: Str, curvalue: Str)
      modifies this
      ensures html == old(html) + Text(markup, formName,
        FieldForm(Here(), shortname, address + shortname, TextInput(curvalue)))
      ensures divcount == old(divcount) + 1 && indent == old(indent)
      ensures address == old(address) && oldAddresses == old(oldAddresses)
    {
      var fullname := address + shortname;
      var begin := OpenForm();
      html := html + (begin + shortname + markup.inputOpen + fullname + markup.valueAttr + curvalue
        + markup.inputClose + markup.endForm);
    }

    /** The long-string branch of the string overload: a textarea. */
    method Area(shortname: Str, rows: int, text: Str)
      modifies this
      ensures html == old(html) + Text(markup, formName,
        FieldForm(Here(), shortname, address + shortname, TextArea(rows, text)))
      ensures divcount == old(divcount) + 1 && indent == old(indent)
      ensures address == old(address) && oldAddresses == old(oldAddresses)
    {
      var fullname := address + shortname;
      var begin := OpenForm();
      html := html + (begin + shortname + markup.areaName + fullname + markup.areaRows + Itos(rows)
        + markup.attrEnd + text + markup.areaClose + markup.endForm);
    }

    /** A string without newlines gets a text input, one with newlines a textarea. */
    method PupString(shortname: Str, value: Str)
      modifies this
      ensures html == old(html) + Text(markup, formName,
        FieldForm(Here(), shortname, address + shortname, ControlFor(ftext, StrBody(value))))
      ensures divcount == old(divcount) + 1 && indent == old(indent)
      ensures address == old(address) && oldAddresses == old(oldAddresses)
    {
      var n := CountNewlines(value);
      if n == 0 {
        var e := EscapeHtml(value);
        Inner(shortname, CString(e));
      } else {
        var e := EscapeHtml(value);
        Area(shortname, n + 2, e);
      }
    }

    /** One `<option>` of an enum's SELECT, appended the way the C++ loop does. */
    method PupOption(o: OptionTag)
      modifies this
      ensures html == old(html) + OptionText(markup, o)
      ensures Here() == old(Here()) && address == old(address) && oldAddresses == old(oldAddresses)
    {
      html := html + (markup.optionOpen + o.value + markup.optionValueEnd);
      if o.selected {
        html := html + markup.selected;
      }
      html := html + (markup.tagEnd + o.caption + markup.optionClose);
      Assoc(old(html), markup.optionOpen + o.value + markup.optionValueEnd, if o.selected then markup.selected else []);
      Assoc(old(html), (markup.optionOpen + o.value + markup.optionValueEnd) + (if o.selected then markup.selected else []),
        markup.tagEnd + o.caption + markup.optionClose);
    }

    /** The loop over the enum's name/value table. */
    method PupOptions(value: uint32, options: seq<EnumOption>)
      modifies this
      ensures html == old(html) + OptionsText(markup, EnumOptions(value, options))
      ensures Here() == old(Here()) && address == old(address) && oldAddresses == old(oldAddresses)
    {
      ghost var os := EnumOptions(value, options);
      for k := 0 to |options|
        invariant html == old(html) + OptionsText(markup, os[..k])
        invariant Here() == old(Here()) && address == old(address) && oldAddresses == old(oldAddresses)
      {
        PupOption(OptionTag(Itos(ToSigned(options[k].value)), value == options[k].value, options[k].caption));
        OptionsTextSnoc(markup, os[..k], os[k]);
        assert os[..k + 1] == os[..k] + [os[k]];
        Assoc(old(html), OptionsText(markup, os[..k]), OptionText(markup, os[k]));
      }
      assert os[..|options|] == os;
    }

    /** A SELECT with one option per row of the enum's table, the current value selected. */
    method PupEnum(shortname: Str, value: uint32, options: seq<EnumOption>)
      modifies this
      ensures html == old(html) + Text(markup, formName,
        FieldForm(Here(), shortname, address + shortname, Select(EnumOptions(value, options))))
      ensures divcount == old(divcount) + 1 && indent == old(indent)
      ensures address == old(address) && oldAddresses == old(oldAddresses)
    {
      var fullname := address + shortname;
      var begin := OpenForm();
      var head := begin + shortname + markup.selectOpen + fullname + markup.selectOpenEnd;
      html := html + head;
      PupOptions(value, options);
      html := html + (markup.selectClose + markup.endForm);
      ghost var os := EnumOptions(value, options);
      Assoc(old(html), head, OptionsText(markup, os));
      Assoc(old(html), head + OptionsText(markup, os), markup.selectClose + markup.endForm);
    }

    /** The float, int, string and enum overloads: one form showing the value. */
    method PupLeaf(shortname: Str, b: Body)
      requires IsLeaf(b)
      modifies this
      ensures html == old(html) + Page(markup, formName, RenderBody(ftext, address, shortname, b, old(Here())).0)
      ensures Here() == RenderBody(ftext, address, shortname, b, old(Here())).1
      ensures address == old(address) && oldAddresses == old(oldAddresses)
    {
      ghost var h0, st0 := html, Here();
      ghost var form := FieldForm(Look(st0.indent, st0.divcount + 1), shortname, address + shortname, ControlFor(ftext, b));
      LeafPage(markup, formName, ftext, address, shortname, b, st0);
      if b.FloatBody? {
        Inner(shortname, ftext(b.f));
      } else if b.IntBody? {
        Inner(shortname, Itos(b.i));
      } else if b.StrBody? {
        assert b == StrBody(b.s);
        PupString(shortname, b.s);
      } else {
        PupEnum(shortname, b.e, b.options);
      }
      assert html == h0 + Text(markup, formName, form);
    }

    /** `pup_objectbegin`: a DIV and heading, then the indented DIV of the fields. */
    method ObjectBegin(shortname: Str)
      modifies this
      ensures html == old(html) + Text(markup, formName, ObjectOpen(Look(old(indent), old(divcount) + 1), old(address), shortname))
      ensures Here() == Look(old(indent) + 1, old(divcount) + 1)
      ensures address == Enter(old(address), shortname)
      ensures oldAddresses == old(oldAddresses) + [old(address)]
    {
      oldAddresses := oldAddresses + [address];
      var div := OpenItemDiv();
      html := html + (div + address + markup.boldOpen + shortname + markup.boldClose + markup.indented);
      address := address + shortname + ".";
      indent := indent + 1;
    }

    /** `pup_objectend`: closes both DIVs and returns to the enclosing address. */
    method ObjectEnd(shortname: Str)
      requires oldAddresses != []
      modifies this
      ensures html == old(html) + markup.closeText
      ensures Here() == Look(old(indent) - 1, old(divcount))
      ensures address == old(oldAddresses[|oldAddresses| - 1])
      ensures oldAddresses == old(oldAddresses[..|oldAddresses| - 1])
    {
      html := html + markup.closeText;
      indent := indent - 1;
      address := oldAddresses[|oldAddresses| - 1];
      oldAddresses := oldAddresses[..|oldAddresses| - 1];
    }

    method PupNamed(shortname: Str, b: Body)
      requires WF(b)
      modifies this
      ensures html == old(html) + Page(markup, formName, RenderBody(ftext, old(address), shortname, b, old(Here())).0)
      ensures Here() == RenderBody(ftext, old(address), shortname, b, old(Here())).1
      ensures address == old(address) && oldAddresses == old(oldAddresses)
      decreases b, 3
    {
      match b
      case ObjBody(_) => PupObject(shortname, b);
      case VecBody(_, _) => PupVector(shortname, b);
      case _ => PupLeaf(shortname, b);
    }

    /** The generic object pup: the object's own pup function inside the bracket. */
    method PupObject(shortname: Str, b: Body)
      requires b.ObjBody? && WF(b)
      modifies this
      ensures html == old(html) + Page(markup, formName, RenderBody(ftext, old(address), shortname, b, old(Here())).0)
      ensures Here() == RenderBody(ftext, old(address), shortname, b, old(Here())).1
      ensures address == old(address) && oldAddresses == old(oldAddresses)
      decreases b, 1
    {
      ghost var h0, st0, a0 := html, Here(), address;
      ghost var open := ObjectOpen(Look(st0.indent, st0.divcount + 1), a0, shortname);
      ObjectBegin(shortname);
      ghost var h1 := html;
      assert h1 == h0 + Text(markup, formName, open);
      ghost var r := RenderItems(ftext, address, b.items, Here());
      PupItems(b.items);
      assert html == h1 + Page(markup, formName, r.0) && Here() == r.1;
      ObjectEnd(shortname);
      assert html == (h1 + Page(markup, formName, r.0)) + markup.closeText;
      ObjectPage(markup, formName, h0, ftext, a0, shortname, b, st0, r.0, r.1);
    }

    /** The generic object bracket around the vector pup. */
    method PupVector(shortname: Str, b: Body)
      requires b.VecBody? && WF(b)
      modifies this
      ensures html == old(html) + Page(markup, formName, RenderBody(ftext, old(address), shortname, b, old(Here())).0)
      ensures Here() == RenderBody(ftext, old(address), shortname, b, old(Here())).1
      ensures address == old(address) && oldAddresses == old(oldAddresses)
      decreases b, 2
    {
      ghost var h0, st0, a0 := html, Here(), address;
      ghost var open := ObjectOpen(Look(st0.indent, st0.divcount + 1), a0, shortname);
      ObjectBegin(shortname);
      ghost var h1 := html;
      assert h1 == h0 + Text(markup, formName, open);
      ghost var r := RenderVector(ftext, address, b, Here());
      PupVectorFields(b);
      assert html == h1 + Page(markup, formName, r.0) && Here() == r.1;
      ObjectEnd(shortname);
      assert html == (h1 + Page(markup, formName, r.0)) + markup.closeText;
      ObjectPage(markup, formName, h0, ftext, a0, shortname, b, st0, r.0, r.1);
    }

    /** The vector pup of webconfig.h: `length`, the resize, and the elements. */
    method PupVectorFields(b: Body)
      requires b.VecBody? && WF(b)
      modifies this
      ensures html == old(html) + Page(markup, formName, RenderVector(ftext, old(address), b, old(Here())).0)
      ensures Here() == RenderVector(ftext, old(address), b, old(Here())).1
      ensures address == old(address) && oldAddresses == old(oldAddresses)
      decreases b, 1
    {
      var length := VisitedLength(b.elems);
      ghost var lc := LeafForm(ftext, address, "length", IntBody(length), Here()).0;
      PupLeaf("length", IntBody(length));
      ghost var h1 := html;
      ghost var st1 := Here();
      PupElems(b);
      ghost var cs := RenderElems(ftext, address, b, 0, st1).0;
      PageAppend(markup, formName, lc, cs);
      Assoc(old(html), Page(markup, formName, lc), Page(markup, formName, cs));
    }

    /**
      `for (i = 0; i < length; i++) pup(p, index, v[i])`; this visitor leaves
      `length` as it is, so the `resize` before the loop keeps the vector.
     */
    method PupElems(b: Body)
      requires b.VecBody? && WF(b)
      modifies this
      ensures html == old(html) + Page(markup, formName, RenderElems(ftext, old(address), b, 0, old(Here())).0)
      ensures Here() == RenderElems(ftext, old(address), b, 0, old(Here())).1
      ensures address == old(address) && oldAddresses == old(oldAddresses)
      decreases b, 0
    {
      var length := VisitedLength(b.elems);
      ghost var st0 := Here();
      for i := 0 to length
        invariant old(html) + Page(markup, formName, RenderElems(ftext, address, b, 0, st0).0)
          == html + Page(markup, formName, RenderElems(ftext, address, b, i, Here()).0)
        invariant RenderElems(ftext, address, b, 0, st0).1 == RenderElems(ftext, address, b, i, Here()).1
        invariant address == old(address) && oldAddresses == old(oldAddresses)
      {
        ghost var h := html;
        ghost var a := RenderBody(ftext, address, IndexName(i), b.elems[i], Here());
        PupNamed(IndexName(i), b.elems[i]);
        ghost var rest := RenderElems(ftext, address, b, i + 1, Here()).0;
        PageAppend(markup, formName, a.0, rest);
        Assoc(h, Page(markup, formName, a.0), Page(markup, formName, rest));
      }
    }

    method PupItem(it: Item)
      requires it.Field? ==> WF(it.body)
      modifies this
      ensures html == old(html) + Page(markup, formName, RenderItem(ftext, old(address), it, old(Here())).0)
      ensures Here() == RenderItem(ftext, old(address), it, old(Here())).1
      ensures address == old(address) && oldAddresses == old(oldAddresses)
      decreases it, 0
    {
      match it
      case Field(n, c) => PupNamed(n, c);
      case Comment(t) =>
        Comment(t);
        PageOne(markup, formName, CommentText(t));
    }

    /** An object's own pup function: its statements in order. */
    method PupItems(items: seq<Item>)
      requires WFItems(items)
      modifies this
      ensures html == old(html) + Page(markup, formName, RenderItems(ftext, old(address), items, old(Here())).0)
      ensures Here() == RenderItems(ftext, old(address), items, old(Here())).1
      ensures address == old(address) && oldAddresses == old(oldAddresses)
      decreases items, 1
    {
      ghost var st0 := Here();
      assert items[0..] == items;
      for k := 0 to |items|
        invariant old(html) + Page(markup, formName, RenderItems(ftext, address, items, st0).0)
          == html + Page(markup, formName, RenderItems(ftext, address, items[k..], Here()).0)
        invariant RenderItems(ftext, address, items, st0).1 == RenderItems(ftext, address, items[k..], Here()).1
        invariant address == old(address) && oldAddresses == old(oldAddresses)
      {
        assert items[k..][1..] == items[k + 1..];
        ghost var h := html;
        ghost var a := RenderItem(ftext, address, items[k], Here());
        PupItem(items[k]);
        ghost var rest := RenderItems(ftext, address, items[k + 1..], Here()).0;
        PageAppend(markup, formName, a.0, rest);
        Assoc(h, Page(markup, formName, a.0), Page(markup, formName, rest));
      }
      assert items[|items|..] == [];
    }
  }
}
