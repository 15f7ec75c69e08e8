/**
  The configuration registry and the web editor of webconfig.cpp.

  `webconfig_pup_list` holds one `pup_this_object` per registered program
  object; `pupto` visits the object as a field named by its registration
  name, so the registry is modelled as the values of the registered objects,
  each a `Field(name, value)` item, and `webconfig_pup_all(p)` is one pass
  of a visitor over those items in registration order.  A visitor that
  changes values writes them back into the registry, which stands for the
  program variables the C++ objects refer to.

  The configuration file is a byte sequence (None: the file does not exist).
  `webconfig_editor::respond` reads the request path from the served client
  and answers through its `send`.
 */
module Webconfig {
  import opened Ints
  import opened WebStrings
  import opened FieldTree
  import opened BinaryPup
  import opened NameValuePup
  import opened HtmlFormPup
  import WebServer

  // ---------------------------------------------------------------------
  // WEBCONFIG_THIS: one registration per call site.

  /** One execution of `WEBCONFIG_THIS(obj)` at a call site. */
  datatype Call = Call(site: nat, name: Str, obj: Body)

  /** The `added` flags and the registry after the calls run in order. */
  function Run(added: set<nat>, entries: seq<Item>, calls: seq<Call>): (r: (set<nat>, seq<Item>))
    decreases |calls|
  {
    if calls == [] then (added, entries)
    else if calls[0].site in added then Run(added, entries, calls[1..])
    else Run(added + {calls[0].site}, entries + [Field(calls[0].name, calls[0].obj)], calls[1..])
  }

  function Sites(calls: seq<Call>): set<nat>
  {
    set k | 0 <= k < |calls| :: calls[k].site
  }

  lemma SitesCons(calls: seq<Call>)
    requires calls != []
    ensures Sites(calls) == {calls[0].site} + Sites(calls[1..])
  {
    forall x | x in Sites(calls)
      ensures x in {calls[0].site} + Sites(calls[1..])
    {
      var k :| 0 <= k < |calls| && calls[k].site == x;
      if k > 0 {
        assert calls[1..][k - 1] == calls[k];
      }
    }
    forall x | x in Sites(calls[1..])
      ensures x in Sites(calls)
    {
      var k :| 0 <= k < |calls[1..]| && calls[1..][k].site == x;
      assert calls[k + 1] == calls[1..][k];
    }
  }

  /** After any sequence of calls, the flags are set for exactly the sites that ran. */
  lemma {:induction false} RunFlags(added: set<nat>, entries: seq<Item>, calls: seq<Call>)
    ensures Run(added, entries, calls).0 == added + Sites(calls)
    decreases |calls|
  {
    if calls == [] {
      assert Sites(calls) == {};
    } else {
      SitesCons(calls);
      if calls[0].site in added {
        RunFlags(added, entries, calls[1..]);
      } else {
        RunFlags(added + {calls[0].site}, entries + [Field(calls[0].name, calls[0].obj)], calls[1..]);
      }
    }
  }

  /** The registry only grows: what was registered stays, in its place. */
  lemma {:induction false} RunAppends(added: set<nat>, entries: seq<Item>, calls: seq<Call>)
    ensures |entries| <= |Run(added, entries, calls).1|
    ensures Run(added, entries, calls).1[..|entries|] == entries
    decreases |calls|
  {
    if calls != [] {
      if calls[0].site in added {
        RunAppends(added, entries, calls[1..]);
      } else {
        var e1 := entries + [Field(calls[0].name, calls[0].obj)];
        RunAppends(added + {calls[0].site}, e1, calls[1..]);
        var r := Run(added, entries, calls).1;
        assert r[..|entries|] == r[..|e1|][..|entries|];
      }
    }
  }

  /**
    The registry grows by one entry per call site that had not run before:
    however often a call site runs, it registers at most once.
   */
  lemma {:induction false} RunRegistersOncePerSite(added: set<nat>, entries: seq<Item>, calls: seq<Call>)
    ensures |Run(added, entries, calls).1| == |entries| + |Sites(calls) - added|
    decreases |calls|
  {
    if calls == [] {
      assert Sites(calls) == {};
    } else {
      var c := calls[0];
      SitesCons(calls);
      if c.site in added {
        RunRegistersOncePerSite(added, entries, calls[1..]);
        assert Sites(calls) - added == Sites(calls[1..]) - added;
      } else {
        RunRegistersOncePerSite(added + {c.site}, entries + [Field(c.name, c.obj)], calls[1..]);
        var rest := Sites(calls[1..]) - (added + {c.site});
        assert Sites(calls) - added == rest + {c.site};
        assert c.site !in rest;
      }
    }
  }

  /** Running the same calls again registers nothing more. */
  lemma {:induction false} RunAgain(added: set<nat>, entries: seq<Item>, calls: seq<Call>)
    requires Sites(calls) <= added
    ensures Run(added, entries, calls) == (added, entries)
    decreases |calls|
  {
    if calls != [] {
      SitesCons(calls);
      RunAgain(added, entries, calls[1..]);
    }
  }

  // ---------------------------------------------------------------------
  // webconfig_pup_all: the registered objects, in registration order.

  lemma {:induction false} ItemsLeavesAppend(address: Str, a: seq<Item>, b: seq<Item>)
    ensures ItemsLeaves(address, a + b) == ItemsLeaves(address, a) + ItemsLeaves(address, b)
    decreases |a|
  {
    if a == [] {
      assert a + b == b;
    } else {
      assert (a + b)[0] == a[0];
      assert (a + b)[1..] == a[1..] + b;
      ItemsLeavesAppend(address, a[1..], b);
    }
  }

  /**
    A newly registered object is visited after every object registered
    before it, under its registration name, and nothing else changes.
   */
  lemma RegisteredLast(entries: seq<Item>, name: Str, obj: Body)
    ensures RegistryLeaves(entries + [Field(name, obj)]) == RegistryLeaves(entries) + Leaves("", name, obj)
  {
    ItemsLeavesAppend("", entries, [Field(name, obj)]);
    assert [Field(name, obj)][1..] == [];
  }

  /** The stream a reader over the configuration file starts with. */
  function Opened(file: Option<seq<byte>>): Input
  {
    if file.Some? then Reading(file.value) else Failed
  }

  /**
    Restoring what was saved, in any later run whose registered objects have
    the same shapes, brings back every saved value and reads the whole file.
   */
  lemma SaveRestore(saved: seq<Item>, current: seq<Item>)
    requires WFItems(saved) && WFItems(current) && EraseItems(saved) == EraseItems(current)
    ensures ReadItems(current, Opened(Some(WriteItems(saved)))) == (saved, Reading([]))
  {
    assert WriteItems(saved) + [] == WriteItems(saved);
    ReadWrittenItems(current, saved, []);
  }

  /** Restoring from a file that does not exist changes nothing. */
  lemma RestoreMissing(entries: seq<Item>)
    requires WFItems(entries)
    ensures ReadItems(entries, Opened(None)).0 == entries
  {
    ReadFailedItems(entries);
  }

  /** The registry and the configuration file. */
  class Registry {
    /** The values of the objects in `webconfig_pup_list`, each named by its registration name. */
    var entries: seq<Item>
    /** The call sites of WEBCONFIG_THIS whose `static bool added` is set. */
    var added: set<nat>
    /** The configuration file; None when it does not exist. */
    var file: Option<seq<byte>>

    predicate Valid()
      reads this
    {
      WFItems(entries) && forall k :: 0 <= k < |entries| ==> entries[k].Field?
    }

    constructor (file: Option<seq<byte>>)
      ensures entries == [] && added == {} && this.file == file && Valid()
    {
      entries := [];
      added := {};
      this.file := file;
    }

    /** `webconfig_add_pup`. */
    method AddPup(name: Str, obj: Body)
      requires Valid() && WF(obj)
      modifies this
      ensures entries == old(entries) + [Field(name, obj)]
      ensures added == old(added) && file == old(file) && Valid()
    {
      ItemsCons("", Field(name, obj), []);
      assert entries + [Field(name, obj)] == entries + [Field(name, obj)] + [];
      entries := entries + [Field(name, obj)];
    }

    /** `WEBCONFIG_THIS(name)` at call site `site`, with the object's current value `obj`. */
    method This(site: nat, name: Str, obj: Body)
      requires Valid() && WF(obj)
      modifies this
      ensures (added, entries) == Run(old(added), old(entries), [Call(site, name, obj)])
      ensures file == old(file) && Valid()
    {
      assert [Call(site, name, obj)][1..] == [];
      if site !in added {
        added := added + {site};
        AddPup(name, obj);
      }
    }

    /** `webconfig_pup_all` with a `pup_to_binary_file`. */
    method WriteAll(p: BinaryWriter)
      requires Valid()
      modifies p
      ensures p.out == old(p.out) + WriteItems(entries)
    {
      for k := 0 to |entries|
        invariant old(p.out) + WriteItems(entries) == p.out + WriteItems(entries[k..])
      {
        assert entries[k..][1..] == entries[k + 1..];
        assert WriteItems(entries[k..]) == WriteItem(entries[k]) + WriteItems(entries[k + 1..]);
        Assoc(p.out, WriteItem(entries[k]), WriteItems(entries[k + 1..]));
        p.PupNamed(entries[k].body);
      }
      assert entries[|entries|..] == [];
    }

    /** `webconfig_pup_all` with a `pup_from_binary_file`: each object is read in place. */
    method ReadAll(p: BinaryReader)
      requires Valid()
      modifies this, p
      ensures (entries, p.input) == ReadItems(old(entries), old(p.input))
      ensures added == old(added) && file == old(file) && Valid()
    {
      ghost var e0, in0 := entries, p.input;
      var n := |entries|;
      assert e0[0..] == e0;
      for k := 0 to n
        invariant |entries| == n && entries[k..] == e0[k..]
        invariant ReadItems(e0, in0).0 == entries[..k] + ReadItems(e0[k..], p.input).0
        invariant ReadItems(e0, in0).1 == ReadItems(e0[k..], p.input).1
        invariant added == old(added) && file == old(file)
      {
        assert e0[k..][1..] == e0[k + 1..];
        assert entries[k] == e0[k];
        ghost var a := ReadItem(e0[k], p.input);
        ghost var rest := ReadItems(e0[k + 1..], a.1);
        assert ReadItems(e0[k..], p.input) == ([a.0] + rest.0, rest.1);
        ghost var before := entries;
        var x := p.PupItem(entries[k]);
        entries := entries[k := x];
        WriteBack(before, k, x, rest.0);
      }
      assert e0[n..] == [] && entries[..n] == entries;
      assert ReadItems(e0[n..], p.input) == ([], p.input);
      assert entries[..n] + [] == entries;
      assert ReadItems(e0, in0) == (entries, p.input);
      ReadShapeItems(e0, in0);
      AllFields(e0, entries);
    }

    /** `webconfig_pup_all` with a `pup_from_name_value`; a thrown exception ends the pass. */
    method ApplyAll(p: NameValueApplier)
      requires Valid() && p.address == [] && |p.request.text| < TWO31
      modifies this, p
      ensures (entries, State(p.found, p.aborted))
        == ApplyItems(p.request, [], old(entries), State(old(p.found), old(p.aborted)))
      ensures added == old(added) && file == old(file) && Valid()
    {
      ghost var e0, st0 := entries, State(p.found, p.aborted);
      var n := |entries|;
      assert e0[0..] == e0;
      var k := 0;
      while k < n && !p.aborted
        invariant 0 <= k <= n
        invariant |entries| == n && entries[k..] == e0[k..]
        invariant !p.aborted ==> p.address == []
        invariant ApplyItems(p.request, [], e0, st0).0
          == entries[..k] + ApplyItems(p.request, [], e0[k..], State(p.found, p.aborted)).0
        invariant ApplyItems(p.request, [], e0, st0).1
          == ApplyItems(p.request, [], e0[k..], State(p.found, p.aborted)).1
        invariant added == old(added) && file == old(file)
      {
        assert entries[k] == e0[k];
        ghost var a := ApplyItem(p.request, [], e0[k], State(p.found, p.aborted));
        ghost var rest := ApplyItems(p.request, [], e0[k + 1..], a.1);
        ApplyStep(p.request, e0, k, State(p.found, p.aborted));
        ghost var before := entries;
        var x := p.PupItem(entries[k]);
        entries := entries[k := x];
        WriteBack(before, k, x, rest.0);
        k := k + 1;
      }
      assert entries == entries[..k] + e0[k..];
      ShapeItems(p.request, [], e0, st0);
      AllFields(e0, entries);
    }

    /** `webconfig_pup_all` with a `pup_to_HTML_form`. */
    method RenderAll(p: HtmlForm)
      requires Valid() && p.address == []
      modifies p
      ensures p.html == old(p.html) + Page(p.markup, p.formName, RenderItems(p.ftext, [], entries, old(p.Here())).0)
      ensures p.Here() == RenderItems(p.ftext, [], entries, old(p.Here())).1
    {
      ghost var st0 := p.Here();
      assert entries[0..] == entries;
      for k := 0 to |entries|
        invariant old(p.html) + Page(p.markup, p.formName, RenderItems(p.ftext, [], entries, st0).0)
          == p.html + Page(p.markup, p.formName, RenderItems(p.ftext, [], entries[k..], p.Here()).0)
        invariant RenderItems(p.ftext, [], entries, st0).1 == RenderItems(p.ftext, [], entries[k..], p.Here()).1
        invariant p.address == []
      {
        assert entries[k..][1..] == entries[k + 1..];
        ghost var h := p.html;
        ghost var a := RenderItem(p.ftext, [], entries[k], p.Here());
        p.PupItem(entries[k]);
        ghost var rest := RenderItems(p.ftext, [], entries[k + 1..], p.Here()).0;
        PageAppend(p.markup, p.formName, a.0, rest);
        Assoc(h, Page(p.markup, p.formName, a.0), Page(p.markup, p.formName, rest));
      }
      assert entries[|entries|..] == [];
    }

    /** `webconfig_save`: the file is rewritten with every registered object. */
    method Save()
      requires Valid()
      modifies this
      ensures file == Some(WriteItems(entries))
      ensures entries == old(entries) && added == old(added) && Valid()
    {
      var p := new BinaryWriter();
      WriteAll(p);
      assert p.out == WriteItems(entries);
      file := Some(p.out);
    }

    /** `webconfig_restore`: every registered object is read back from the file, in place. */
    method Restore()
      requires Valid()
      modifies this
      ensures entries == ReadItems(old(entries), Opened(file)).0
      ensures file == old(file) && added == old(added) && Valid()
    {
      var p := new BinaryReader(file);
      ReadAll(p);
    }
  }

  /** A pass that has visited k entries writes the k-th one back. */
  lemma WriteBack(before: seq<Item>, k: nat, x: Item, rest: seq<Item>)
    requires k < |before|
    ensures before[k := x][..k + 1] + rest == before[..k] + ([x] + rest)
    ensures before[k := x][k + 1..] == before[k + 1..]
  {
    assert before[k := x][..k + 1] == before[..k] + [x];
  }

  /** One step of a name/value pass over the registry entries from `k` on. */
  lemma ApplyStep(q: Request, e0: seq<Item>, k: nat, st: State)
    requires k < |e0| && !st.aborted
    ensures ApplyItems(q, [], e0[k..], st)
      == ([ApplyItem(q, [], e0[k], st).0] + ApplyItems(q, [], e0[k + 1..], ApplyItem(q, [], e0[k], st).1).0,
          ApplyItems(q, [], e0[k + 1..], ApplyItem(q, [], e0[k], st).1).1)
  {
    assert e0[k..][1..] == e0[k + 1..];
  }

  /** Keeping the shape keeps every registry entry a field. */
  lemma AllFields(e0: seq<Item>, e: seq<Item>)
    requires forall k :: 0 <= k < |e0| ==> e0[k].Field?
    requires EraseItems(e) == EraseItems(e0)
    ensures forall k :: 0 <= k < |e| ==> e[k].Field?
  {
    forall k | 0 <= k < |e|
      ensures e[k].Field?
    {
      assert EraseItem(e[k]) == EraseItem(e0[k]);
    }
  }

  // ---------------------------------------------------------------------
  // webconfig_editor: the pages it answers with.

  const HtmlMime: Str := "text/html"
  const Root: Str := "/"
  const Query: Str := "?"
  const EqualsSign: Str := "="
  const Title: Str := "<HTML><TITLE>Edit Configuration</TITLE> " + "<BODY> <H1>Configuration Editor</H1>\n"
  const RefreshOpen: Str := "<FORM ACTION=\"/"
  const RefreshClose: Str := "\"><INPUT type=\"submit\" value=\"Refresh\" />" + "</FORM>\n\n"
  const Prompt: Str := "Enter new values and hit enter " + "or Submit:<br>\n"
  const PageEnd: Str := "</BODY> </HTML>\n"
  const MissingEquals: Str := "<P>ERROR! Missing equals sign " + "in CGI parameters!\n"
  const MissingFieldOpen: Str := "<P>ERROR! Missing field '"
  const MissingFieldClose: Str := "'!\n"

  /** The `page_start` the constructor builds for a form name. */
  function PageStart(formName: Str): Str
  {
    Title + RefreshOpen + formName + RefreshClose + Prompt
  }

  /** What a `pup_to_HTML_form` over every registered object appends. */
  function Form(formName: Str, ftext: Float32 -> Str, entries: seq<Item>): Str
  {
    Page(WebconfigMarkup, formName, RenderItems(ftext, [], entries, Look(0, 0)).0)
  }

  /**
    What `apply_parameters` does: the objects afterwards, whether the file
    was saved, its result (`makeForm`), what it appended to the page, and
    whether the name/value pass threw.
   */
  datatype Applied = Applied(entries: seq<Item>, saved: bool, makeForm: bool, message: Str, threw: bool)

  /** The request a `name=value` pair makes. */
  function Assignment(atof: Str -> Float32, fullname: Str, value: Str): Request
  {
    Request(fullname, value, atof(value))
  }

  function ApplyParameters(atof: Str -> Float32, entries: seq<Item>, parameters: Str): Applied
  {
    if |parameters| < 2 then Applied(entries, false, true, [], false)
    else
      match WebServer.Find(parameters, EqualsSign)
      case None => Applied(entries, false, false, MissingEquals, false)
      case Some(eq) =>
        var fullname := parameters[..eq];
        var value := parameters[eq + 1..];
        var (e, st) := ApplyItems(Assignment(atof, fullname, value), [], entries, State(false, false));
        if st.aborted then Applied(e, false, false, [], true)
        else if st.found then Applied(e, true, true, [], false)
        else Applied(e, true, false, MissingFieldOpen + fullname + MissingFieldClose, false)
  }

  /** What `respond` does: it declines (returns false), sends a page, or throws. */
  datatype Reply = Declined | Sent(page: Str) | Threw

  datatype Outcome = Outcome(entries: seq<Item>, saved: bool, reply: Reply)

  /** The answer to a request for `path`. */
  function Answer(formName: Str, pageStart: Str, pageEnd: Str, ftext: Float32 -> Str,
                  atof: Str -> Float32, entries: seq<Item>, path: Str): Outcome
  {
    var initial := path == Root || path == Root + formName;
    if WebServer.Prefix(path, 2 + |formName|) == Root + formName + Query then
      var a := ApplyParameters(atof, entries, path[2 + |formName|..]);
      if a.threw then Outcome(a.entries, a.saved, Threw)
      else
        var form := if a.makeForm then Form(formName, ftext, a.entries) + pageEnd else [];
        Outcome(a.entries, a.saved, Sent(pageStart + a.message + form))
    else if initial then Outcome(entries, false, Sent(pageStart + Form(formName, ftext, entries) + pageEnd))
    else Outcome(entries, false, Declined)
  }

  /** The paths the editor answers: its root, its form, and its form with parameters. */
  predicate Routed(formName: Str, path: Str)
  {
    path == Root || path == Root + formName || HasPrefix(path, Root + formName + Query)
  }

  lemma PrefixIsHasPrefix(path: Str, marker: Str)
    ensures WebServer.Prefix(path, |marker|) == marker <==> HasPrefix(path, marker)
  {
  }

  /**
    `respond` declines exactly the paths it does not serve, and then changes
    nothing; whatever it serves it answers with a page, unless the
    name/value pass throws.
   */
  lemma AnswerRouting(formName: Str, pageStart: Str, pageEnd: Str, ftext: Float32 -> Str,
                      atof: Str -> Float32, entries: seq<Item>, path: Str)
    ensures var o := Answer(formName, pageStart, pageEnd, ftext, atof, entries, path);
      && (o.reply.Declined? <==> !Routed(formName, path))
      && (o.reply.Declined? ==> o.entries == entries && !o.saved)
  {
    PrefixIsHasPrefix(path, Root + formName + Query);
  }

  /** A request for the root or for the form gets the page with the current values. */
  lemma InitialPage(formName: Str, pageStart: Str, pageEnd: Str, ftext: Float32 -> Str,
                    atof: Str -> Float32, entries: seq<Item>, path: Str)
    requires path == Root || path == Root + formName
    ensures Answer(formName, pageStart, pageEnd, ftext, atof, entries, path)
      == Outcome(entries, false, Sent(pageStart + Form(formName, ftext, entries) + pageEnd))
  {
    assert |WebServer.Prefix(path, 2 + |formName|)| < |Root + formName + Query|;
  }

  /** The query of a form request. */
  function Submitted(formName: Str, parameters: Str): Str
  {
    Root + formName + Query + parameters
  }

  lemma SubmittedParameters(formName: Str, parameters: Str)
    ensures var path := Submitted(formName, parameters);
      WebServer.Prefix(path, 2 + |formName|) == Root + formName + Query
      && path[2 + |formName|..] == parameters
  {
  }

  /** The answer to submitted parameters is what `apply_parameters` makes of them. */
  lemma AnswerSubmitted(formName: Str, pageStart: Str, pageEnd: Str, ftext: Float32 -> Str,
                        atof: Str -> Float32, entries: seq<Item>, parameters: Str, a: Applied)
    requires a == ApplyParameters(atof, entries, parameters)
    ensures Answer(formName, pageStart, pageEnd, ftext, atof, entries, Submitted(formName, parameters))
      == if a.threw then Outcome(a.entries, a.saved, Threw)
         else Outcome(a.entries, a.saved,
                      Sent(pageStart + a.message + if a.makeForm then Form(formName, ftext, a.entries) + pageEnd else []))
  {
    SubmittedParameters(formName, parameters);
  }

  /** Parameters shorter than two characters change nothing, and the page shows the form. */
  lemma NothingToApply(formName: Str, pageStart: Str, pageEnd: Str, ftext: Float32 -> Str,
                       atof: Str -> Float32, entries: seq<Item>, parameters: Str)
    requires |parameters| < 2
    ensures Answer(formName, pageStart, pageEnd, ftext, atof, entries, Submitted(formName, parameters))
      == Outcome(entries, false, Sent(pageStart + Form(formName, ftext, entries) + pageEnd))
  {
    AnswerSubmitted(formName, pageStart, pageEnd, ftext, atof, entries, parameters,
                    Applied(entries, false, true, [], false));
    var form := Form(formName, ftext, entries);
    assert pageStart + [] + (form + pageEnd) == pageStart + form + pageEnd;
  }

  /** Without an equals sign the page carries the error and no form; nothing changes or is saved. */
  lemma NoEqualsSign(formName: Str, pageStart: Str, pageEnd: Str, ftext: Float32 -> Str,
                     atof: Str -> Float32, entries: seq<Item>, parameters: Str)
    requires |parameters| >= 2 && forall k :: 0 <= k < |parameters| ==> parameters[k] != '='
    ensures Answer(formName, pageStart, pageEnd, ftext, atof, entries, Submitted(formName, parameters))
      == Outcome(entries, false, Sent(pageStart + MissingEquals))
  {
    forall j: nat
      ensures !WebServer.OccursAt(parameters, EqualsSign, j)
    {
      if j + 1 <= |parameters| {
        assert parameters[j..j + 1][0] == parameters[j];
      }
    }
    assert WebServer.Find(parameters, EqualsSign).None?;
    AnswerSubmitted(formName, pageStart, pageEnd, ftext, atof, entries, parameters,
                    Applied(entries, false, false, MissingEquals, false));
    assert pageStart + MissingEquals + [] == pageStart + MissingEquals;
  }

  /** The parameters split at the first equals sign. */
  lemma SplitAtEquals(fullname: Str, value: Str)
    requires forall k :: 0 <= k < |fullname| ==> fullname[k] != '='
    ensures var parameters := fullname + EqualsSign + value;
      && WebServer.Find(parameters, EqualsSign) == Some(|fullname|)
      && parameters[..|fullname|] == fullname && parameters[|fullname| + 1..] == value
  {
    var parameters := fullname + EqualsSign + value;
    assert parameters[|fullname|..|fullname| + 1] == EqualsSign;
    forall j: nat | j < |fullname|
      ensures !WebServer.OccursAt(parameters, EqualsSign, j)
    {
      assert parameters[j..j + 1][0] == parameters[j] == fullname[j];
    }
    WebServer.FindFirst(parameters, EqualsSign, |fullname|);
  }

  /**
    A name that matches no leaf changes nothing, yet the file is saved; the
    page carries the missing-field error and no form.
   */
  lemma MissingField(formName: Str, pageStart: Str, pageEnd: Str, ftext: Float32 -> Str,
                     atof: Str -> Float32, entries: seq<Item>, fullname: Str, value: Str)
    requires WFItems(entries)
    requires forall k :: 0 <= k < |fullname| ==> fullname[k] != '='
    requires |fullname| + |value| >= 1
    requires fullname !in Names(RegistryLeaves(entries))
    ensures Answer(formName, pageStart, pageEnd, ftext, atof, entries,
                   Submitted(formName, fullname + EqualsSign + value))
      == Outcome(entries, true, Sent(pageStart + MissingFieldOpen + fullname + MissingFieldClose))
  {
    SplitAtEquals(fullname, value);
    UnmatchedItems(Assignment(atof, fullname, value), [], entries, State(false, false));
    var message := MissingFieldOpen + fullname + MissingFieldClose;
    AnswerSubmitted(formName, pageStart, pageEnd, ftext, atof, entries, fullname + EqualsSign + value,
                    Applied(entries, true, false, message, false));
    assert pageStart + message + [] == pageStart + MissingFieldOpen + fullname + MissingFieldClose;
  }

  /**
    `apply_parameters` with a name that matches leaves (none of them a
    vector's `length`): exactly those leaves get the submitted value, every
    shape is kept, the file is saved, and the form is to be shown.
   */
  lemma ApplySetsField(atof: Str -> Float32, entries: seq<Item>, fullname: Str, value: Str)
    requires WFItems(entries) && |value| < TWO31
    requires forall k :: 0 <= k < |fullname| ==> fullname[k] != '='
    requires |fullname| + |value| >= 1
    requires fullname in Names(RegistryLeaves(entries))
    requires NoResize(Assignment(atof, fullname, value), RegistryLeaves(entries))
    ensures var a := ApplyParameters(atof, entries, fullname + EqualsSign + value);
      && !a.threw && a.saved && a.makeForm && a.message == []
      && RegistryLeaves(a.entries) == SetLeaves(Assignment(atof, fullname, value), RegistryLeaves(entries))
      && WFItems(a.entries) && EraseItems(a.entries) == EraseItems(entries)
  {
    var q := Assignment(atof, fullname, value);
    SplitAtEquals(fullname, value);
    EditItems(q, [], entries, State(false, false));
    FoundItems(q, [], entries, State(false, false));
  }

  /** The page for a name that matches leaves shows the form with the new values. */
  lemma FieldSet(formName: Str, pageStart: Str, pageEnd: Str, ftext: Float32 -> Str,
                 atof: Str -> Float32, entries: seq<Item>, fullname: Str, value: Str)
    requires WFItems(entries) && |value| < TWO31
    requires forall k :: 0 <= k < |fullname| ==> fullname[k] != '='
    requires |fullname| + |value| >= 1
    requires fullname in Names(RegistryLeaves(entries))
    requires NoResize(Assignment(atof, fullname, value), RegistryLeaves(entries))
    ensures var o := Answer(formName, pageStart, pageEnd, ftext, atof, entries,
                            Submitted(formName, fullname + EqualsSign + value));
      && o.saved
      && RegistryLeaves(o.entries) == SetLeaves(Assignment(atof, fullname, value), RegistryLeaves(entries))
      && WFItems(o.entries) && EraseItems(o.entries) == EraseItems(entries)
      && o.reply == Sent(pageStart + Form(formName, ftext, o.entries) + pageEnd)
  {
    ApplySetsField(atof, entries, fullname, value);
    var a := ApplyParameters(atof, entries, fullname + EqualsSign + value);
    AnswerSubmitted(formName, pageStart, pageEnd, ftext, atof, entries, fullname + EqualsSign + value, a);
    assert pageStart + [] == pageStart;
    Assoc(pageStart, Form(formName, ftext, a.entries), pageEnd);
  }

  /** `webconfig_editor`. */
  class Editor {
    const formName: Str
    var pageStart: Str
    var pageEnd: Str
    /** The `"%f"` formatting of `pup_to_HTML_form`. */
    const ftext: Float32 -> Str
    /** The `atof` of `pup_from_name_value`. */
    const atof: Str -> Float32

    constructor (formName: Str, ftext: Float32 -> Str, atof: Str -> Float32)
      ensures this.formName == formName && this.ftext == ftext && this.atof == atof
      ensures pageStart == PageStart(formName) && pageEnd == PageEnd
    {
      this.formName := formName;
      this.ftext := ftext;
      this.atof := atof;
      pageStart := Title + RefreshOpen + formName + RefreshClose + Prompt;
      pageEnd := PageEnd;
    }

    /** `apply_parameters(html, parameters)`, returning the appended html. */
    method ApplyParams(reg: Registry, html: Str, parameters: Str) returns (ok: bool, html': Str, threw: bool)
      requires reg.Valid() && |parameters| < TWO31
      modifies reg
      ensures var a := ApplyParameters(atof, old(reg.entries), parameters);
        && reg.entries == a.entries && ok == a.makeForm && html' == html + a.message && threw == a.threw
        && reg.file == (if a.saved then Some(WriteItems(a.entries)) else old(reg.file))
      ensures reg.added == old(reg.added) && reg.Valid()
    {
      ok, html', threw := true, html, false;
      if |parameters| < 2 {
        return;
      }
      var eq := WebServer.Find(parameters, EqualsSign);
      if eq.None? {
        ok, html' := false, html + MissingEquals;
        return;
      }
      var fullname := parameters[..eq.value];
      var value := parameters[eq.value + 1..];
      var p := new NameValueApplier(Assignment(atof, fullname, value));
      reg.ApplyAll(p);
      if p.aborted {
        ok, threw := false, true;
        return;
      }
      reg.Save();
      if !p.found {
        ok, html' := false, html + MissingFieldOpen + fullname + MissingFieldClose;
      }
    }

    /**
      The page `respond` builds for `path`, the registry updated and saved
      as it goes; Declined when the path is not the editor's.
     */
    method Compose(reg: Registry, path: Str) returns (r: Reply)
      requires reg.Valid() && |path| < TWO31
      modifies reg
      ensures var o := Answer(formName, pageStart, pageEnd, ftext, atof, old(reg.entries), path);
        && r == o.reply
        && reg.entries == o.entries
        && reg.file == (if o.saved then Some(WriteItems(o.entries)) else old(reg.file))
      ensures reg.added == old(reg.added) && reg.Valid()
    {
      var html := pageStart;
      var makeForm := false;
      var sendResponse := false;
      ghost var o := Answer(formName, pageStart, pageEnd, ftext, atof, reg.entries, path);
      ghost var message: Str := [];
      if path == Root || path == Root + formName {
        sendResponse, makeForm := true, true;
      }
      if WebServer.Prefix(path, 2 + |formName|) == Root + formName + Query {
        sendResponse := true;
        ghost var a := ApplyParameters(atof, reg.entries, path[2 + |formName|..]);
        var threw;
        makeForm, html, threw := ApplyParams(reg, html, path[2 + |formName|..]);
        message := a.message;
        if threw {
          return Threw;
        }
      } else {
        assert o.entries == reg.entries && !o.saved;
      }
      assert html == pageStart + message;
      if makeForm {
        ghost var form := Form(formName, ftext, reg.entries);
        var p := new HtmlForm(html, formName, ftext);
        reg.RenderAll(p);
        assert p.html == pageStart + message + form;
        html := p.html + pageEnd;
        Assoc(pageStart + message, form, pageEnd);
      } else {
        assert html == pageStart + message + [];
      }
      assert sendResponse ==> o.reply == Sent(html);
      assert !sendResponse ==> o.reply == Declined;
      r := if sendResponse then Sent(html) else Declined;
    }

    /** `respond(client)`: the served client's path decides the answer, which goes out through `send`. */
    method Respond(reg: Registry, client: WebServer.HttpClient) returns (r: Reply)
      requires reg.Valid() && |client.path| < TWO31
      modifies reg, client
      ensures var o := Answer(formName, pageStart, pageEnd, ftext, atof, old(reg.entries), old(client.path));
        && r == o.reply
        && reg.entries == o.entries
        && reg.file == (if o.saved then Some(WriteItems(o.entries)) else old(reg.file))
      ensures r.Sent? ==> client.sent == old(client.sent) + WebServer.HeaderText(HtmlMime, Wrap32(|r.page|), 200) + r.page
      ensures !r.Sent? ==> client.sent == old(client.sent)
      ensures reg.added == old(reg.added) && reg.Valid()
      ensures client.path == old(client.path) && client.header == old(client.header)
      ensures client.error == old(client.error) && client.s == old(client.s) && client.closes == old(client.closes)
    {
      r := Compose(reg, client.GetPath());
      if r.Sent? {
        assert |HtmlMime| < WebServer.MimeLimit;
        client.Send(HtmlMime, r.page);
      }
    }
  }
}
