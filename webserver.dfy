/**
  The HTTP side of the tiny web server: `http_served_client` parses the
  request line and the header lines its socket yields, and frames the
  response it sends back.

  The request is modelled on the sequence of lines the socket yields (each
  without its line terminator); once that sequence is used up, every further
  read yields the empty line.  What reaches the socket is kept in `sent`.
 */
module WebServer {
  import opened Ints
  import opened WebStrings

  const GetMethod: Str := "GET "
  const VersionMarker: Str := " HTTP/"
  const Colon: Str := ":"
  const FieldSeparator: Str := ": "
  const Crlf: Str := "\r\n"
  const ContentLength: Str := "Content-Length"
  const Connection: Str := "Connection"
  const ContentType: Str := "Content-Type"
  const Close: Str := "close"
  const StatusLineStart: Str := "HTTP/1.1 "
  const Space: Str := " "
  const OkText: Str := "OK"
  const ErrorText: Str := "error"
  const MalformedHeader: Str := "Malformed HTTP header " + "(only GET supported for now)"
  const RidiculousMime: Str := "Ridiculous mime_type length"

  /** The size of the buffer `send_header` formats into, and the mime type length it refuses. */
  const HeaderBufferLength: nat := 1000
  const MimeLimit: nat := HeaderBufferLength - 200

  // ---------------------------------------------------------------------
  // The std::string operations the parser uses.

  predicate OccursAt(s: Str, pat: Str, i: nat)
  {
    i + |pat| <= |s| && s[i..i + |pat|] == pat
  }

  /** `s.find(pat, i)`: the first position at or after i where pat occurs. */
  function FindFrom(s: Str, pat: Str, i: nat): (r: Option<nat>)
    requires i <= |s|
    ensures r.Some? ==> i <= r.value <= |s| && OccursAt(s, pat, r.value)
    ensures forall j :: i <= j <= |s| && (r.None? || j < r.value) ==> !OccursAt(s, pat, j)
    decreases |s| - i
  {
    if OccursAt(s, pat, i) then Some(i) else if i == |s| then None else FindFrom(s, pat, i + 1)
  }

  /** `s.find(pat)`; None stands for `npos`. */
  function Find(s: Str, pat: Str): (r: Option<nat>)
    ensures r.Some? ==> OccursAt(s, pat, r.value)
    ensures forall j: nat :: (r.None? || j < r.value) ==> !OccursAt(s, pat, j)
  {
    FindFrom(s, pat, 0)
  }

  /** Find returns exactly the first occurrence. */
  lemma FindFirst(s: Str, pat: Str, k: nat)
    requires OccursAt(s, pat, k)
    requires forall j: nat :: j < k ==> !OccursAt(s, pat, j)
    ensures Find(s, pat) == Some(k)
  {
  }

  /** `std::string(s, 0, n)`: at most the first n characters. */
  function Prefix(s: Str, n: nat): (r: Str)
    ensures r <= s && |r| == if |s| <= n then |s| else n
  {
    if |s| <= n then s else s[..n]
  }

  /** What the k-th call of `skt_recv_line` yields. */
  function LineAt(lines: seq<Str>, k: nat): Str
  {
    if k < |lines| then lines[k] else []
  }

  // ---------------------------------------------------------------------
  // Parsing the request.

  predicate IsGet(req: Str)
  {
    Prefix(req, 4) == GetMethod
  }

  /**
    The path of a GET request line: what follows "GET ", up to the first
    " HTTP/", or all of it when there is none (`find` returns `npos`, which
    as a length means "to the end").
   */
  function RequestPath(req: Str): (path: Str)
    requires IsGet(req)
    ensures path <= req[4..]
    ensures forall j: nat :: !OccursAt(path, VersionMarker, j)
    ensures Find(req[4..], VersionMarker).None? ==> path == req[4..]
  {
    var rest := req[4..];
    match Find(rest, VersionMarker)
    case None => rest
    case Some(k) =>
      forall j: nat | OccursAt(rest[..k], VersionMarker, j) ensures OccursAt(rest, VersionMarker, j) {
        OccursInPrefix(rest, k, VersionMarker, j);
      }
      rest[..k]
  }

  lemma OccursInPrefix(s: Str, k: nat, pat: Str, j: nat)
    requires k <= |s| && OccursAt(s[..k], pat, j)
    ensures OccursAt(s, pat, j)
  {
    assert s[..k][j..j + |pat|] == s[j..j + |pat|];
  }

  /**
    One header line: the keyword is the text before the first ':', the value
    starts two characters after it.  A line without ':' is its own keyword,
    with all but its first character as value.  None stands for the
    `std::out_of_range` that `substr` throws when ':' is the last character.
   */
  function HeaderLine(l: Str): (r: Option<(Str, Str)>)
    requires |l| > 0
  {
    match Find(l, Colon)
    case None => Some((l, l[1..]))
    case Some(c) => if c + 2 > |l| then None else Some((l[..c], l[c + 2..]))
  }

  /** The header lines from the k-th on, up to the first empty line, each entered into the map in turn. */
  function ParseHeaders(lines: seq<Str>, k: nat, header: map<Str, Str>): Option<map<Str, Str>>
    decreases |lines| - k
  {
    var l := LineAt(lines, k);
    if |l| == 0 then Some(header)
    else match HeaderLine(l)
      case None => None
      case Some(kv) => ParseHeaders(lines, k + 1, header[kv.0 := kv.1])
  }

  datatype Request = Request(path: Str, header: map<Str, Str>, error: Option<Str>)

  /** The outcome of the constructor: a parsed request, or the exception a header line threw. */
  datatype Parse = Parsed(req: Request) | Threw

  function ParseRequest(lines: seq<Str>): Parse
  {
    var req := LineAt(lines, 0);
    if !IsGet(req) then Parsed(Request([], map[], Some(MalformedHeader)))
    else match ParseHeaders(lines, 1, map[])
      case None => Threw
      case Some(h) => Parsed(Request(RequestPath(req), h, None))
  }

  // ---------------------------------------------------------------------
  // What the parser promises.

  /**
    The error is set exactly when the first line does not start with
    "GET "; then no header line is read and the path stays empty.  Otherwise
    the error stays null.
   */
  lemma MalformedIffNotGet(lines: seq<Str>)
    ensures var p := ParseRequest(lines);
      (p.Parsed? && p.req.error.Some?) <==> !IsGet(LineAt(lines, 0))
    ensures !IsGet(LineAt(lines, 0)) ==> ParseRequest(lines) == Parsed(Request([], map[], Some(MalformedHeader)))
  {
  }

  /** Every header line past the first empty one is never read. */
  lemma {:induction false} HeadersStopAtBlank(lines: seq<Str>, k: nat, header: map<Str, Str>, rest: seq<Str>)
    requires k <= |lines|
    ensures ParseHeaders(lines + [[]] + rest, k, header) == ParseHeaders(lines, k, header)
    decreases |lines| - k
  {
    var all := lines + [[]] + rest;
    assert LineAt(all, k) == LineAt(lines, k);
    if k < |lines| && |lines[k]| > 0 {
      var kv := HeaderLine(lines[k]);
      if kv.Some? {
        HeadersStopAtBlank(lines, k + 1, header[kv.value.0 := kv.value.1], rest);
      }
    }
  }

  /** The character-level reading of `find(":")`. */
  lemma ColonAt(l: Str, j: nat)
    ensures OccursAt(l, Colon, j) <==> j < |l| && l[j] == ':'
  {
    if j < |l| {
      assert l[j..j + 1] == [l[j]];
    }
  }

  /** A field line `keyword: value` gives back the keyword and the value, when the keyword has no ':'. */
  lemma FieldLineRead(k: Str, v: Str)
    requires ':' !in k
    ensures |FieldLine(k, v)| > 0 && HeaderLine(FieldLine(k, v)) == Some((k, v))
  {
    var l := FieldLine(k, v);
    assert l[|k|] == ':';
    ColonAt(l, |k|);
    forall j: nat | j < |k| ensures !OccursAt(l, Colon, j) {
      ColonAt(l, j);
      assert l[j] == k[j];
    }
    FindFirst(l, Colon, |k|);
    assert l[..|k|] == k && l[|k| + 2..] == v;
  }

  /** A line without ':' is its own keyword; its value drops the first character. */
  lemma LineWithoutColon(l: Str)
    requires |l| > 0 && ':' !in l
    ensures HeaderLine(l) == Some((l, l[1..]))
  {
    forall j: nat ensures !OccursAt(l, Colon, j) {
      ColonAt(l, j);
    }
  }

  /** Reading a header line throws exactly when its first ':' is its last character. */
  lemma HeaderLineThrows(l: Str)
    requires |l| > 0
    ensures HeaderLine(l).None? <==> l[|l| - 1] == ':' && ':' !in l[..|l| - 1]
  {
    var f := Find(l, Colon);
    if f.Some? {
      ColonAt(l, f.value);
      forall j: nat | j < f.value ensures l[j] != ':' {
        ColonAt(l, j);
      }
      if f.value + 2 > |l| {
        assert l[..|l| - 1] == l[..f.value];
      } else {
        assert l[..|l| - 1][f.value] == ':';
      }
    } else {
      ColonAt(l, |l| - 1);
      if ':' in l[..|l| - 1] {
        var j :| 0 <= j < |l| - 1 && l[..|l| - 1][j] == ':';
        ColonAt(l, j);
      }
    }
  }

  // ---------------------------------------------------------------------
  // The partner of the parser: a well-formed request, written out.

  function RequestLine(path: Str, version: Str): Str
  {
    GetMethod + path + VersionMarker + version
  }

  function FieldLine(k: Str, v: Str): Str
  {
    k + FieldSeparator + v
  }

  function FieldLines(fields: seq<(Str, Str)>): (r: seq<Str>)
    ensures |r| == |fields|
    ensures forall i :: 0 <= i < |fields| ==> r[i] == FieldLine(fields[i].0, fields[i].1)
  {
    if fields == [] then [] else [FieldLine(fields[0].0, fields[0].1)] + FieldLines(fields[1..])
  }

  /** The header map after the fields are entered in order: a later keyword overwrites an earlier one. */
  function Collect(fields: seq<(Str, Str)>, header: map<Str, Str>): map<Str, Str>
  {
    if fields == [] then header else Collect(fields[1..], header[fields[0].0 := fields[0].1])
  }

  predicate PlainKeywords(fields: seq<(Str, Str)>)
  {
    forall i :: 0 <= i < |fields| ==> ':' !in fields[i].0
  }

  /** The first " HTTP/" of path + " HTTP/" + version is the one after the path. */
  lemma MarkerAfterPath(path: Str, version: Str)
    requires forall j: nat :: !OccursAt(path, VersionMarker, j)
    ensures Find(path + VersionMarker + version, VersionMarker) == Some(|path|)
  {
    var rest := path + VersionMarker + version;
    assert rest[|path|..|path| + 6] == VersionMarker;
    forall j: nat | j < |path| ensures !OccursAt(rest, VersionMarker, j) {
      if OccursAt(rest, VersionMarker, j) {
        if j + 6 <= |path| {
          assert path[j..j + 6] == rest[j..j + 6];
          assert OccursAt(path, VersionMarker, j);
        } else {
          MarkerStraddle(path, version, j);
        }
      }
    }
    FindFirst(rest, VersionMarker, |path|);
  }

  /** " HTTP/" cannot start inside the path and run into the marker after it: only its first character is a space. */
  lemma MarkerStraddle(path: Str, version: Str, j: nat)
    requires j < |path| < j + 6
    ensures !OccursAt(path + VersionMarker + version, VersionMarker, j)
  {
    var rest := path + VersionMarker + version;
    var d := |path| - j;
    assert rest[|path|] == ' ';
    assert forall i :: 1 <= i < 6 ==> VersionMarker[i] != ' ';
    if j + 6 <= |rest| {
      assert rest[j..j + 6][d] == rest[|path|];
    }
  }

  /** Header lines written as `keyword: value` are read back into the map they describe. */
  lemma {:induction false} FieldsRead(before: seq<Str>, fields: seq<(Str, Str)>, header: map<Str, Str>)
    requires PlainKeywords(fields)
    ensures ParseHeaders(before + FieldLines(fields), |before|, header) == Some(Collect(fields, header))
    decreases |fields|
  {
    var lines := before + FieldLines(fields);
    if fields == [] {
      assert LineAt(lines, |before|) == [];
    } else {
      var f := fields[0];
      FieldLineRead(f.0, f.1);
      assert LineAt(lines, |before|) == FieldLine(f.0, f.1);
      var before' := before + [FieldLine(f.0, f.1)];
      assert lines == before' + FieldLines(fields[1..]);
      assert PlainKeywords(fields[1..]) by {
        forall i | 0 <= i < |fields| - 1 ensures ':' !in fields[1..][i].0 {
          assert fields[1..][i] == fields[i + 1];
        }
      }
      FieldsRead(before', fields[1..], header[f.0 := f.1]);
    }
  }

  /**
    The round trip of a request: a GET line with a path free of " HTTP/",
    then `keyword: value` lines, then the empty line, parses into that path
    and the fields entered in order, without error; what follows the empty
    line is never read.
   */
  lemma RequestRoundTrip(path: Str, version: Str, fields: seq<(Str, Str)>, rest: seq<Str>)
    requires forall j: nat :: !OccursAt(path, VersionMarker, j)
    requires PlainKeywords(fields)
    ensures ParseRequest([RequestLine(path, version)] + FieldLines(fields) + [[]] + rest)
      == Parsed(Request(path, Collect(fields, map[]), None))
  {
    var req := RequestLine(path, version);
    var lines := [req] + FieldLines(fields);
    assert LineAt(lines + [[]] + rest, 0) == req;
    assert req[..4] == GetMethod;
    assert req[4..] == path + VersionMarker + version;
    MarkerAfterPath(path, version);
    assert RequestPath(req) == path;
    HeadersStopAtBlank(lines, 1, map[], rest);
    FieldsRead([req], fields, map[]);
  }

  // ---------------------------------------------------------------------
  // The response header.

  function StatusText(status: int32): Str
  {
    if status == 200 then OkText else ErrorText
  }

  /** The lines `send_header` formats, before the blank line that ends the header. */
  function ResponseLines(mime: Str, total: int32, status: int32): seq<Str>
  {
    [StatusLineStart + Itos(status) + Space + StatusText(status),
     FieldLine(ContentLength, Itos(total)),
     FieldLine(Connection, Close),
     FieldLine(ContentType, CString(mime))]
  }

  /** Each line followed by CRLF, then the CRLF of the blank line. */
  function Terminated(lines: seq<Str>): Str
  {
    if lines == [] then Crlf else lines[0] + Crlf + Terminated(lines[1..])
  }

  function HeaderText(mime: Str, total: int32, status: int32): Str
  {
    Terminated(ResponseLines(mime, total, status))
  }

  lemma {:induction false} TerminatedLength(lines: seq<Str>, bound: nat)
    requires forall i :: 0 <= i < |lines| ==> |lines[i]| <= bound
    ensures |Terminated(lines)| <= |lines| * (bound + 2) + 2
  {
    if lines != [] {
      TerminatedLength(lines[1..], bound);
    }
  }

  /**
    A mime type shorter than the limit keeps the formatted header, with its
    terminating NUL, inside the 1000-character buffer: the guard rules out
    the overflow of `sprintf`.
   */
  lemma HeaderFitsBuffer(mime: Str, total: int32, status: int32)
    requires |mime| < MimeLimit
    ensures |HeaderText(mime, total, status)| + 1 <= HeaderBufferLength
  {
    ItosLength(status);
    ItosLength(total);
    var ls: seq<Str> := ResponseLines(mime, total, status);
    assert |ls[0]| <= 26 && |ls[1]| <= 27 && |ls[2]| == 17 && |ls[3]| <= 14 + |mime|;
    assert Terminated(ls) == ls[0] + Crlf + Terminated(ls[1..]);
    assert Terminated(ls[1..]) == ls[1] + Crlf + Terminated(ls[2..]);
    assert Terminated(ls[2..]) == ls[2] + Crlf + Terminated(ls[3..]);
    assert Terminated(ls[3..]) == ls[3] + Crlf + Terminated(ls[4..]);
    assert Terminated(ls[4..]) == Crlf;
  }

  /** The header fields of the response, read back with the server's own header grammar. */
  lemma ResponseFieldsRead(mime: Str, total: int32, status: int32)
    ensures ParseHeaders(ResponseLines(mime, total, status), 1, map[])
      == Some(map[ContentLength := Itos(total), Connection := Close, ContentType := CString(mime)])
  {
    var fields := [(ContentLength, Itos(total)), (Connection, Close), (ContentType, CString(mime))];
    var ls := ResponseLines(mime, total, status);
    assert ls == [ls[0]] + FieldLines(fields);
    assert PlainKeywords(fields);
    FieldsRead([ls[0]], fields, map[]);
    var m1 := map[ContentLength := Itos(total)];
    var m2 := m1[Connection := Close];
    var f1, f2 := fields[1..], fields[2..];
    assert Collect(fields, map[]) == Collect(f1, m1);
    assert f1[1..] == f2;
    assert Collect(f1, m1) == Collect(f2, m2);
    assert |f2[1..]| == 0;
  }

  // ---------------------------------------------------------------------
  // The connection object.

  class HttpClient {
    /** The socket; 0 once closed. */
    var s: int
    /** How many times the socket was handed to `skt_close`. */
    var closes: nat
    var path: Str
    var header: map<Str, Str>
    var error: Option<Str>
    /** The constructor threw `std::out_of_range` (in C++ no object then exists). */
    var threw: bool
    /** Everything written to the socket. */
    var sent: Str

    /** `http_served_client(socket, ip, port)`, reading the request from `lines`. */
    constructor (socket: int, lines: seq<Str>)
      ensures s == socket && closes == 0 && sent == []
      ensures var p := ParseRequest(lines);
        && threw == p.Threw?
        && (p.Parsed? ==> path == p.req.path && header == p.req.header && error == p.req.error)
    {
      s := socket;
      closes := 0;
      sent := [];
      var req := LineAt(lines, 0);
      if Prefix(req, 4) != GetMethod {
        error := Some(MalformedHeader);
        path := [];
        header := map[];
        threw := false;
      } else {
        var h: map<Str, Str> := map[];
        var bad := false;
        var k := 1;
        var l := LineAt(lines, k);
        while |l| != 0 && !bad
          invariant l == LineAt(lines, k)
          invariant bad ==> ParseHeaders(lines, 1, map[]).None?
          invariant !bad ==> ParseHeaders(lines, 1, map[]) == ParseHeaders(lines, k, h)
          decreases |lines| - k, if bad then 0 else 1
        {
          var kv := HeaderLine(l);
          if kv.None? {
            bad := true;
          } else {
            h := h[kv.value.0 := kv.value.1];
            k := k + 1;
            l := LineAt(lines, k);
          }
        }
        threw := bad;
        path := RequestPath(req);
        header := h;
        error := None;
      }
    }

    /** `get_error`. */
    function GetError(): Option<Str>
      reads this
    {
      error
    }

    /** `get_path`. */
    function GetPath(): Str
      reads this
    {
      path
    }

    /** `get_header`: `header[keyword]`, which enters an empty value for a keyword never received. */
    method GetHeader(keyword: Str) returns (v: Str)
      modifies this
      ensures v == if keyword in old(header) then old(header)[keyword] else []
      ensures header == old(header)[keyword := v]
      ensures s == old(s) && closes == old(closes) && path == old(path) && error == old(error)
      ensures threw == old(threw) && sent == old(sent)
    {
      if keyword !in header {
        header := header[keyword := []];
      }
      v := header[keyword];
    }

    method SendRaw(data: Str)
      modifies this
      ensures sent == old(sent) + data
      ensures s == old(s) && closes == old(closes) && path == old(path) && error == old(error)
      ensures threw == old(threw) && header == old(header)
    {
      sent := sent + data;
    }

    /** `send_header`, whose status defaults to 200: a mime type of 800 characters or more sets the error and sends nothing. */
    method SendHeader(mime: Str, total: int32, status: int32 := 200)
      modifies this
      ensures |mime| >= MimeLimit ==> error == Some(RidiculousMime) && sent == old(sent)
      ensures |mime| < MimeLimit ==> error == old(error) && sent == old(sent) + HeaderText(mime, total, status)
      ensures s == old(s) && closes == old(closes) && path == old(path)
      ensures threw == old(threw) && header == old(header)
    {
      if |mime| >= MimeLimit {
        error := Some(RidiculousMime);
        return;
      }
      HeaderFitsBuffer(mime, total, status);
      var text := HeaderText(mime, total, status);
      SendRaw(text);
    }

    /** `send(mime_type, str)`: the header for status 200, then the body, which goes out even when the header was refused. */
    method Send(mime: Str, str: Str)
      modifies this
      ensures |mime| >= MimeLimit ==> error == Some(RidiculousMime) && sent == old(sent) + str
      ensures |mime| < MimeLimit ==>
        error == old(error) && sent == old(sent) + HeaderText(mime, Wrap32(|str|), 200) + str
      ensures s == old(s) && closes == old(closes) && path == old(path)
      ensures threw == old(threw) && header == old(header)
    {
      SendHeader(mime, Wrap32(|str|));
      SendRaw(str);
    }

    /** `send_error(mime_type, str, error_type)`; the default error type is 404. */
    method SendError(mime: Str, str: Str, errorType: int32 := 404)
      modifies this
      ensures |mime| >= MimeLimit ==> error == Some(RidiculousMime) && sent == old(sent) + str
      ensures |mime| < MimeLimit ==>
        error == old(error) && sent == old(sent) + HeaderText(mime, Wrap32(|str|), errorType) + str
      ensures s == old(s) && closes == old(closes) && path == old(path)
      ensures threw == old(threw) && header == old(header)
    {
      SendHeader(mime, Wrap32(|str|), errorType);
      SendRaw(str);
    }

    /** `close`: the socket is closed only while it is open, so closing again does nothing. */
    method Close()
      modifies this
      ensures s == 0 && closes == old(closes) + (if old(s) != 0 then 1 else 0)
      ensures path == old(path) && error == old(error) && threw == old(threw)
      ensures header == old(header) && sent == old(sent)
    {
      if s != 0 {
        closes := closes + 1;
      }
      s := 0;
    }

    /** The destructor, which calls `close`: after an explicit `close` it closes nothing more. */
    method Destroy()
      modifies this
      ensures s == 0 && closes == old(closes) + (if old(s) != 0 then 1 else 0)
      ensures path == old(path) && error == old(error) && threw == old(threw)
      ensures header == old(header) && sent == old(sent)
    {
      Close();
    }
  }
}
