# osl core, modelled in Dafny

This project models five parts of the osl C++ library and proves what they do.

- **webconfig**: a program registers its variables with `WEBCONFIG_THIS`. Several "pup_er" visitors then walk the registered objects in one fixed order:
  - a flat binary writer and reader for the `config.dat` file;
  - a name/value applier that writes one submitted form field into the leaf of that fully qualified name;
  - a renderer that draws the HTML editing page.

  `webconfig_editor::respond` routes the editor's HTTP requests, and `apply_parameters` splits the submitted `name=value`. The string helpers `itos`, `count_newlines`, `escape_HTML` and `unescape_URL` sit alongside.
- **webserver**: `http_served_client` parses a GET request line and its header lines. It also frames the response with `send_header`, `send` and `send_error`, and `close` closes the client.
- **random**: `Random::nextInt`; the 32-bit and 48-bit linear congruential generators `Random32` and `Random48`; and the integer part of `RandomMz`, namely the seed-range reduction and the `i97`/`j97` bookkeeping.
- **vector1d**: the closed integer interval `seg1dT<int>`.
- **matrixT**: the in-place row, column and whole-matrix operations of `MatrixT`, plus the free `copy`.

## How the model is built

The field tree of registered variables is a datatype, `FieldTree.Body`. It has float, int, string and enum leaves, objects holding statements (`Item`), and vectors. A vector carries its elements and the blank element that `resize` appends.

Each visitor is a class with the C++ visitor's own fields:
- the output bytes, or the input stream;
- `found`, `address` and the `old_addresses` stack;
- the appended `html`, with the `indent` and `divcount` counters.

Its methods mirror the C++ overloads and the generic `pup` functions of webconfig.h. Each method is proved equal to a pure traversal function, such as `BinaryPup.ReadBody`, `NameValuePup.ApplyBody` or `HtmlFormPup.RenderBody`. The properties are lemmas about those functions, stated against `FieldTree.Leaves`: the fully qualified leaves in visiting order.

The registry is a class holding a `seq<Item>`. Each registered object is a field named by its registration name. The configuration file is `Option<seq<byte>>`, where None means there is no file.

Other modelling choices:
- `http_served_client` receives its lines as a `seq` of strings and records what it sent as a string.
- The random generators are classes over their `int` and `long long` seed fields. The arithmetic wraps to 32 or 64 bits explicitly, and C++'s truncating `%` is written out.
- `seg1i` is a class over two 32-bit fields. Its const queries are functions on the value `Vector1d.Span`.
- `MatrixT` is a class over an `array2<real>`. Every method is specified by a function on the grid of its entries, and the lemmas are about those functions.

Behaviour the code has that a reader may not expect, modelled as the code does it:
- A header line without `:` becomes its own keyword, and its value is the line without its first character: `find_first_of` returns `npos`, which plus 2 is 1.
- A header line whose first `:` is its last character makes `substr` throw. The constructor then ends by an exception: `WebServer.Parse.Threw`.
- Negative lengths crash rather than fail gracefully:
  - When the name/value applier sets a vector's `length` to a negative number, `resize` throws. The pass ends there and `respond` sends no page.
  - When a string length read from the file is negative, `resize` throws. `webconfig_restore` catches the exception, and the objects already read keep their new values.
- `nextInline` does not rotate the seed: its rotation is commented out.
- A one-line string that holds a NUL is shown only up to that NUL: `inner` receives `escape_HTML(value).c_str()`, and the `std::string` built from that pointer stops at the first NUL. Such strings arise from a submitted `%00` or from a restored file. A textarea shows the whole string.

## Model

| member | source | states |
|---|---|---|
| Ints.UnsignedSignedRoundTrip | webconfig.h:99-104 | storing an enum's `unsigned int` in an `int` and back gives it back; the same holds from `int` to `unsigned int` and back |
| Ints.LE32RoundTrip | webconfig.cpp:108-113 | the four little-endian bytes of a 32-bit value read back as that value |
| Ints.FromLE32Inverse | webconfig.cpp:131-136 | any four bytes are the memory image of exactly one 32-bit value |
| Ints.StrBytesRoundTrip | webconfig.cpp:137-141 | a string's characters, written as bytes and read back, give the string back |
| WebStrings.Itos | webconfig.cpp:37-41 | `itos` is never empty and starts with `-` exactly for negative numbers |
| WebStrings.ItosLength | webconfig.cpp:38-39 | any 32-bit int prints in at most 11 characters, well inside the 100-byte buffer |
| WebStrings.DecimalValueOfNatDecimal | webconfig.cpp:39 | the digits `%d` prints denote the number printed |
| WebStrings.AtoiDigits | webconfig.cpp:161 | `atoi` of a digit run is its decimal value, wrapped to 32 bits |
| WebStrings.AtoiMinusDigits | webconfig.cpp:161 | `atoi` of `-` and a digit run is minus that value, wrapped to 32 bits |
| WebStrings.AtoiItos | webconfig.cpp:37-41 | reading `itos(i)` back with `atoi` gives i, so an int field shown on the page and submitted unchanged keeps its value |
| WebStrings.CountNewlines | webconfig.cpp:44-48 | the loop returns the number of `\n` characters in the string |
| WebStrings.NewlinesZero | webconfig.cpp:229 | the count is 0 exactly when the string holds no newline, the test that picks a text input over a textarea |
| WebStrings.NewlinesBound | webconfig.cpp:44-48 | the count never exceeds the length |
| WebStrings.EscapeHtml | webconfig.cpp:53-66 | the loop returns the string with each of `"` `<` `>` `&` replaced by its entity and every other character copied |
| WebStrings.EscapedAppend | webconfig.cpp:55-64 | escaping works character by character: escaping a concatenation concatenates the escapes |
| WebStrings.EscapedCons | webconfig.cpp:56-63 | the escape of a string is the replacement of its first character followed by the escape of the rest |
| WebStrings.EscapedHasNoSpecials | webconfig.cpp:57-60 | the escaped text holds no `"`, `<` or `>`, so it cannot end the attribute it is put in |
| WebStrings.EscapedPlain | webconfig.cpp:61-63 | a string without the four special characters is returned unchanged |
| WebStrings.DecodeEscapeChar | webconfig.cpp:57-62 | decoding entities after any one character's replacement gives back that character |
| WebStrings.DecodeEscaped | webconfig.cpp:53-66 | escaping loses nothing: entity decoding of the escaped text gives the original |
| WebStrings.ScanHexPair | webconfig.cpp:79-85 | for two hex digits, `sscanf("%x")` followed by the `char` cast gives the byte they denote; other pairs follow `sscanf`'s white space, sign and stop-at-non-digit rules |
| WebStrings.UnescapeUrl | webconfig.cpp:71-93 | the loop returns the decoded text the specification function describes |
| WebStrings.UnescapedAt | webconfig.cpp:73-90 | one step of the decoding: `+` gives a space; a `%` with two more characters gives the scanned byte and skips both; anything else, including a `%` near the end, is copied |
| WebStrings.UnescapedShorter | webconfig.cpp:71-93 | the decoded text is never longer than the input |
| WebStrings.UnescapedPlain | webconfig.cpp:71-93 | text without `%` and `+` decodes to itself |
| WebStrings.UnescapeFormEncoded | webconfig.cpp:71-93 | decoding undoes the browser's form encoding (`+` for space, `%XX` for any other unsafe byte) of every byte string |
| FieldTree.Resized | webconfig.h:67 | `resize(n)` gives n elements: the old ones where they existed, the blank element after them |
| FieldTree.LeavesPrefix | webconfig.h:115-120 | every leaf inside a named value is named with the enclosing address followed by that name |
| FieldTree.ItemsPrefix | webconfig.h:157 | every leaf inside an object's statements is named with the object's address first |
| FieldTree.ElemsPrefix | webconfig.h:69-72 | the leaves of vector elements are named with the vector's address followed by a decimal digit, never by `length` |
| BinaryPup.IntBytesRoundTrip | webconfig.cpp:111-113 | the four bytes an int is written as read back as that int |
| BinaryPup.ResizedStr | webconfig.cpp:117 | `resize(n)` on a string gives n characters: the old ones, then NULs |
| BinaryPup.ReadBytesWritten | webconfig.cpp:109 | `read` into a buffer of k bytes takes exactly the next k bytes of the stream |
| BinaryPup.ReadIntWritten | webconfig.cpp:111-113 | reading an int from the bytes written for v gives v and leaves the rest of the stream, whatever the int held before |
| BinaryPup.ReadStrWritten | webconfig.cpp:114-119 | reading a string from its length word and bytes gives that string back, whatever its old length was |
| BinaryPup.WriteBodyIsLeaves | webconfig.cpp:125-142 | the writer emits the bytes of the value's leaves in visiting order and nothing for object boundaries or comments: 4 bytes per int, float or enum, and 4 + length per string |
| BinaryPup.WriteItemsIsLeaves | webconfig.h:49-59 | an object's statements are written as the bytes of their leaves, in order |
| BinaryPup.WriteItemIsLeaves | webconfig.h:86 | a field statement is written as its leaves; a comment writes nothing |
| BinaryPup.WriteElemsIsLeaves | webconfig.h:69-73 | vector elements are written as their leaves, in index order |
| BinaryPup.ReadWrittenBody | webconfig.cpp:102-142 | reading the bytes written for a value into any variable of the same shape restores the value exactly, including the lengths of strings and vectors, and stops just after those bytes |
| BinaryPup.ReadWrittenItems | webconfig.cpp:102-142 | the same round trip for an object's statements |
| BinaryPup.ReadWrittenItem | webconfig.cpp:102-142 | the same round trip for one statement |
| BinaryPup.ReadWrittenElems | webconfig.h:63-74 | the same round trip for the elements of a resized vector |
| BinaryPup.ReadFailedBody | webconfig.cpp:108-119 | once the stream has failed, reading leaves every variable unchanged |
| BinaryPup.ReadFailedItems | webconfig.cpp:108-119 | the same for an object's statements |
| BinaryPup.ReadFailedElems | webconfig.cpp:108-119 | the same for vector elements |
| BinaryPup.ReadShapeBody | webconfig.cpp:114-119 | whatever the file holds, reading keeps every variable's shape, and each string or vector it resizes gets a length an `int` can hold |
| BinaryPup.ReadShapeVec | webconfig.h:65-67 | reading a vector keeps its shape |
| BinaryPup.ReadShapeItems | webconfig.cpp:102-120 | reading keeps the shape of an object's statements |
| BinaryPup.ReadShapeItem | webconfig.cpp:102-120 | reading keeps the shape of one statement |
| BinaryPup.ReadShapeElems | webconfig.h:69-73 | every element read has the vector's element shape |
| BinaryPup.BinaryWriter.constructor | webconfig.cpp:129 | a new writer has written nothing |
| BinaryPup.BinaryWriter.PupFloat | webconfig.cpp:131-133 | appends the float's four bytes |
| BinaryPup.BinaryWriter.PupInt | webconfig.cpp:134-136 | appends the int's four bytes |
| BinaryPup.BinaryWriter.PupString | webconfig.cpp:137-141 | appends the length word, then the characters |
| BinaryPup.BinaryWriter.PupEnum | webconfig.h:99-104 | the default enum method writes the value as an int |
| BinaryPup.BinaryWriter.PupNamed | webconfig.h:115-120 | visiting a named value appends exactly the writer's bytes for it |
| BinaryPup.BinaryWriter.PupItems | webconfig.h:49-59 | running an object's pup statements appends their bytes in order |
| BinaryPup.BinaryReader.constructor | webconfig.cpp:106 | the reader starts at the beginning of the file; a missing file is a failed stream |
| BinaryPup.BinaryReader.Read | webconfig.cpp:109 | `s.read` takes bytes from the stream, or fails it when too few remain |
| BinaryPup.BinaryReader.PupFloat | webconfig.cpp:108-110 | reads four bytes into the float |
| BinaryPup.BinaryReader.PupInt | webconfig.cpp:111-113 | reads four bytes into the int |
| BinaryPup.BinaryReader.PupString | webconfig.cpp:114-119 | reads the length over the old length, resizes, then reads the characters |
| BinaryPup.BinaryReader.PupEnum | webconfig.h:99-104 | the enum is read as an int and stored back into the unsigned field |
| BinaryPup.BinaryReader.PupNamed | webconfig.h:115-120 | visiting a named value reads it as the reader's traversal function says |
| BinaryPup.BinaryReader.PupVector | webconfig.h:63-74 | reads `length`, resizes the vector, then reads each element |
| BinaryPup.BinaryReader.PupItem | webconfig.h:49-59 | a field statement is read; a comment reads nothing |
| BinaryPup.BinaryReader.PupItems | webconfig.h:49-59 | an object's statements are read in order |
| NameValuePup.Decode | webconfig.cpp:157-172 | the value a matching leaf is given is a leaf of the same kind and shape: decoding the submitted text never changes a field's type |
| NameValuePup.UnmatchedBody | webconfig.cpp:191-196 | when no leaf of a value has the target's full name, the value and the visitor's state stay as they were |
| NameValuePup.UnmatchedItems | webconfig.cpp:191-196 | the same for an object's statements |
| NameValuePup.UnmatchedElems | webconfig.cpp:191-196 | the same for vector elements |
| NameValuePup.FoundBody | webconfig.cpp:152-154 | afterwards `found` holds exactly when it held before or some leaf has the target's full name; the pass ends by an exception only when such a leaf exists |
| NameValuePup.FoundItems | webconfig.cpp:191-196 | the same for an object's statements |
| NameValuePup.FoundElems | webconfig.cpp:191-196 | the same for vector elements |
| NameValuePup.EditBody | webconfig.cpp:157-172 | when no matching leaf is a vector `length`, exactly the leaves with the target's full name take the decoded value; every other leaf and every shape stays |
| NameValuePup.EditVec | webconfig.h:63-74 | the same inside a vector whose `length` is not the target |
| NameValuePup.EditItem | webconfig.cpp:157-172 | the same for one statement |
| NameValuePup.EditItems | webconfig.cpp:157-172 | the same for an object's statements |
| NameValuePup.EditElems | webconfig.h:69-73 | the same for vector elements |
| NameValuePup.LengthNotAnElement | webconfig.h:69-72 | no element leaf carries the full name of its vector's `length` |
| NameValuePup.ResizeVec | webconfig.h:65-67 | targeting a vector's `length` resizes it to `atoi` of the text and sets `found`; a negative length throws and leaves the vector as it was |
| NameValuePup.ShapeBody | webconfig.cpp:149-197 | whatever the request, even one that resizes or throws, every variable keeps its shape |
| NameValuePup.ShapeVec | webconfig.h:63-74 | the same for a vector |
| NameValuePup.ShapeItems | webconfig.cpp:149-197 | the same for an object's statements |
| NameValuePup.ShapeItem | webconfig.cpp:149-197 | the same for one statement |
| NameValuePup.ShapeElems | webconfig.h:69-73 | every element keeps the vector's element shape |
| NameValuePup.NameValueApplier.constructor | webconfig.cpp:153-154 | a new applier has `found` false and an empty address |
| NameValuePup.NameValueApplier.Inner | webconfig.cpp:191-196 | reports whether address + short name is the target, and sets `found` on a hit |
| NameValuePup.NameValueApplier.ObjectBegin | webconfig.cpp:174-178 | pushes the address and appends the short name and a dot |
| NameValuePup.NameValueApplier.ObjectEnd | webconfig.cpp:179-182 | pops back to the address in force before the matching `pup_objectbegin` |
| NameValuePup.NameValueApplier.PupLeaf | webconfig.cpp:157-172 | a float, int, string or enum leaf takes the decoded value exactly when its full name is the target |
| NameValuePup.NameValueApplier.PupNamed | webconfig.h:115-120 | visiting a named value applies the request as the traversal function says, and restores the address |
| NameValuePup.NameValueApplier.PupVector | webconfig.h:63-74 | visits `length`, resizes, then visits the elements, inside the object bracket |
| NameValuePup.NameValueApplier.PupElems | webconfig.h:69-73 | visits every element of the resized vector under its decimal index |
| NameValuePup.NameValueApplier.PupItem | webconfig.h:86 | a field is visited; a comment is ignored |
| NameValuePup.NameValueApplier.PupItems | webconfig.h:49-59 | an object's statements are visited in order until something throws |
| HtmlFormPup.ObjectColor | webconfig.cpp:293-304 | `getobjectcolor` is a 7-character colour for every depth |
| HtmlFormPup.DivColor | webconfig.cpp:306-316 | the shaded colour still has 7 characters, so the writes to `color[6]` and `color[2]` stay in range |
| HtmlFormPup.EnumOptions | webconfig.cpp:250-254 | one option per row of the enum table, in order, valued by `itos` of the row's value, and selected exactly when that value is the current one |
| HtmlFormPup.LeafForms | webconfig.cpp:216-257 | the expected forms: one per leaf, named by its full name, whose control for a one-line string is its escaped text up to the first NUL |
| HtmlFormPup.RenderedForms | webconfig.cpp:205-340 | the page drawn for a value holds exactly one form per leaf, in visiting order; each form is named by the leaf's full name and shows the control for its value, where a one-line string is cut at its first NUL |
| HtmlFormPup.BracketForms | webconfig.cpp:259-277 | an object's heading and its closing markup hold no form |
| HtmlFormPup.RenderedVectorForms | webconfig.h:63-74 | the forms of a vector are the `length` field's, then its elements' |
| HtmlFormPup.RenderedItemsForms | webconfig.h:49-59 | the forms of an object's statements are those of their leaves |
| HtmlFormPup.RenderedElemsForms | webconfig.h:69-73 | the forms of vector elements are those of their leaves, in index order |
| HtmlFormPup.Bracket | webconfig.cpp:259-277 | an object's heading, its fields and its closing nest properly, and take one DIV more than the fields |
| HtmlFormPup.RenderShape | webconfig.cpp:259-277 | drawing a value returns the nesting depth to where it was, every DIV opened for an object is closed in order, and `divcount` grows by one per form and per object |
| HtmlFormPup.ItemsShape | webconfig.cpp:259-277 | the same for an object's statements |
| HtmlFormPup.ElemsShape | webconfig.cpp:259-277 | the same for vector elements |
| HtmlFormPup.BracketPage | webconfig.cpp:262-276 | an object's markup is its heading, the page of its fields, then the closing markup |
| HtmlFormPup.LeafPage | webconfig.cpp:216-257 | a leaf's markup is the one form that shows its value in the next DIV, a one-line string up to its first NUL |
| HtmlFormPup.ObjectPage | webconfig.cpp:259-277 | an object's or vector's markup is its heading, its fields' page and the closing markup, and the depth returns |
| HtmlFormPup.HtmlForm.constructor | webconfig.cpp:208-209 | starts with the caller's html, depth 0, no DIVs drawn and an empty address |
| HtmlFormPup.HtmlForm.Comment | webconfig.cpp:211-213 | a comment is appended as raw HTML |
| HtmlFormPup.HtmlForm.OpenItemDiv | webconfig.cpp:306-326 | counts one more DIV and returns its opening tag in the shaded colour |
| HtmlFormPup.HtmlForm.OpenForm | webconfig.cpp:282-285 | a new DIV, then a FORM whose action is `/` followed by the form name |
| HtmlFormPup.HtmlForm.Inner | webconfig.cpp:332-339 | appends a form with a text input named by the full name and holding the value |
| HtmlFormPup.HtmlForm.Area | webconfig.cpp:231-238 | appends a form with a textarea named by the full name, its rows given, holding the escaped text |
| HtmlFormPup.HtmlForm.PupString | webconfig.cpp:228-239 | a string without newlines gets a text input with the escaped value cut at its first NUL by `c_str()`; one with newlines gets a textarea of newline count + 2 rows holding the whole escaped value |
| HtmlFormPup.OneLineString | webconfig.cpp:229-230 | a one-line string's text input shows the escape of its characters before the first NUL, and all of it when it holds no NUL |
| HtmlFormPup.OneLineStringWithNul | webconfig.cpp:230 | the value a, NUL, b is shown as a |
| HtmlFormPup.HtmlForm.PupOption | webconfig.cpp:251-253 | appends one `<option>`, marked `selected` when it is the current value |
| HtmlFormPup.HtmlForm.PupOptions | webconfig.cpp:250-254 | appends the options of the whole enum table, in order |
| HtmlFormPup.HtmlForm.PupEnum | webconfig.cpp:242-257 | appends a form holding a SELECT named by the full name, with one option per table row |
| HtmlFormPup.HtmlForm.PupLeaf | webconfig.cpp:216-257 | a float, int, string or enum leaf appends the one form that shows its value, a one-line string up to its first NUL |
| HtmlFormPup.HtmlForm.ObjectBegin | webconfig.cpp:259-269 | appends the DIV, the address and bold name, and the indented DIV; the depth goes up and the address extends |
| HtmlFormPup.HtmlForm.ObjectEnd | webconfig.cpp:270-277 | closes both DIVs; the depth goes down and the address before the matching begin returns |
| HtmlFormPup.HtmlForm.PupNamed | webconfig.h:115-120 | visiting a named value appends its page as the rendering function says and restores the address |
| HtmlFormPup.HtmlForm.PupObject | webconfig.h:115-120 | an object's statements are drawn between its heading and its closing markup |
| HtmlFormPup.HtmlForm.PupVector | webconfig.h:115-120 | a vector is drawn between its heading and its closing markup |
| HtmlFormPup.HtmlForm.PupVectorFields | webconfig.h:63-74 | draws the `length` field, then the elements |
| HtmlFormPup.HtmlForm.PupElems | webconfig.h:69-73 | draws each element under its decimal index |
| HtmlFormPup.HtmlForm.PupItem | webconfig.cpp:211-213 | a field is drawn; a comment is appended as it is |
| HtmlFormPup.HtmlForm.PupItems | webconfig.h:49-59 | an object's statements are drawn in order |
| WebServer.FindFrom | webserver.cpp:31 | the result is the first occurrence at or after the start, or none when there is no occurrence |
| WebServer.Find | webserver.cpp:31 | `find` gives the first occurrence, or `npos` when there is none |
| WebServer.FindFirst | webserver.cpp:31 | an occurrence with none before it is what `find` returns |
| WebServer.Prefix | webserver.cpp:29 | `std::string(s, 0, n)` is the first n characters, or all of a shorter string |
| WebServer.RequestPath | webserver.cpp:30-32 | the path is a prefix of what follows `GET `, holds no ` HTTP/`, and is everything after `GET ` when the marker is absent |
| WebServer.MalformedIffNotGet | webserver.cpp:25-29 | the error is set exactly when the first line does not start with `GET `, and then nothing else is read and the path is empty |
| WebServer.HeadersStopAtBlank | webserver.cpp:36-37 | lines after the first empty one are never read |
| WebServer.FieldLineRead | webserver.cpp:38-40 | a line `keyword: value`, with no `:` in the keyword, gives that keyword and value |
| WebServer.LineWithoutColon | webserver.cpp:38-40 | a line without `:` is its own keyword, and its value is the line without its first character |
| WebServer.HeaderLineThrows | webserver.cpp:40 | a header line makes `substr` throw exactly when its first `:` is its last character |
| WebServer.MarkerAfterPath | webserver.cpp:31-32 | in `path HTTP/version` the first ` HTTP/` is the one after the path |
| WebServer.FieldsRead | webserver.cpp:36-42 | `keyword: value` lines are entered into the header map in order, a later keyword overwriting an earlier one |
| WebServer.RequestRoundTrip | webserver.cpp:24-43 | the GET line, `keyword: value` lines and an empty line parse into that path and those fields, with no error, whatever follows |
| WebStrings.CString | webserver.cpp:60 | `%s` of `c_str()` prints the longest prefix without a NUL: the string stops there or at a NUL, and all of it is kept when there is none |
| WebStrings.CStringAppend | webconfig.cpp:230 | text without a NUL survives `c_str()` whole, and the cut falls in what follows |
| WebStrings.CStringEscaped | webconfig.cpp:55-64 | escaping keeps NULs, so cutting at the first NUL before or after `escape_HTML` gives the same text |
| WebServer.HeaderFitsBuffer | webserver.cpp:49-61 | with a mime type under 800 characters, the formatted header and its NUL fit the 1000-byte buffer |
| WebServer.ResponseFieldsRead | webserver.cpp:52-61 | the header `send_header` formats, read back with the server's own header grammar, gives Content-Length, `Connection: close` and Content-Type |
| WebServer.HttpClient.constructor | webserver.cpp:24-43 | the path, header map and error are those of parsing the received lines; a header line that throws ends the constructor |
| WebServer.HttpClient.GetHeader | webserver.h:42 | returns the stored value, or the empty string for a keyword never received; in that case it enters the empty value into the map |
| WebServer.HttpClient.SendRaw | webserver.cpp:66-69 | the data go out as given |
| WebServer.HttpClient.SendHeader | webserver.cpp:46-63 | the status defaults to 200; a mime type of 800 or more characters sets the error and sends nothing; otherwise the status line and the three fields go out, CRLF-terminated and followed by a blank line |
| WebServer.HttpClient.Send | webserver.h:46-49 | the header for status 200 and the body's length, then exactly the body; when the mime type is refused the body still goes out, without a header |
| WebServer.HttpClient.SendError | webserver.h:52-56 | the header with the given status, 404 by default, then the body; the body still goes out when the mime type is refused |
| WebServer.HttpClient.Close | webserver.h:26 | closes the socket only while it is open and then clears it, so a second close does nothing |
| WebServer.HttpClient.Destroy | webserver.h:25 | the destructor closes the socket if `close` has not |
| Random.PowerTestMeaning | random.cpp:16 | for positive n, `(n & -n) == n` holds exactly when n is a power of 2 |
| Random.NextIntFrom | random.cpp:14-25 | for positive n the result lies in [0, n) and uses at least one draw |
| Random.NextIntFromCases | random.cpp:16-24 | powers of two take the one-draw branch; every other n takes the rejection loop |
| Random.RejectLoopStep | random.cpp:20-23 | one round of the loop: accept `bits % n` or draw again |
| Random.NextIntPowerOfTwo | random.cpp:16-17 | for n = 2^k, one draw is used and the result is its top k bits |
| Random.RejectsMeaning | random.cpp:23 | the loop's overflow test redraws exactly the draws from the incomplete last block of n values |
| Random.NextIntOther | random.cpp:19-24 | for other positive n the result is the first accepted draw mod n, and each earlier draw was rejected |
| Random.NextIntIsRejectLoop | random.cpp:14-25 | a positive non-power of two is handled by the loop |
| Random.Step32Mod | random.cpp:73 | the new seed, read as `unsigned`, is (seed * mul + add) mod 2^32 |
| Random.Rot16Twice | random.cpp:75 | the 16-bit rotation is its own inverse, so it loses no bit of the seed |
| Random.Out32Range | random.cpp:76 | `next(bits)`, and `nextInline(bits)` (random.h:63), lie in [0, 2^bits) for bits up to 31 |
| Random.Draws32 | random.cpp:72-77 | the draws of next(31) all lie in [0, 2^31) |
| Random.DrawIs32 | random.cpp:72-77 | the i-th draw is the output for the seed after i + 1 updates |
| Random.Xor32Twice | random.cpp:62 | xor with the mask is undone by xor with the mask, so `setSeed` loses nothing |
| Random.Random32.constructor | random.h:54 | `Random32(s)` seeds as `setSeed(s)` does and starts with no cached gaussian |
| Random.Random32.Default | random.h:54 | the default argument is 1 |
| Random.Random32.SetSeed | random.cpp:61-68 | the seed is nSeed xor 0x7fce66d0 (from which nSeed comes back), mul is 69069 and add is 1 |
| Random.Random32.SetParameters | random.cpp:69-71 | stores the three arguments as given |
| Random.Random32.Next | random.cpp:72-77 | one seed update, then the rotated seed's top bits |
| Random.Random32.NextInline | random.h:59-64 | the same seed update as `next`, but the top bits of the unrotated seed |
| Random.Random32.NextInt | random.cpp:14-25 | the value of `nextInt` for the draws this generator makes, with the seed advanced by the draws used |
| Random.Random32.RejectDraws | random.cpp:19-24 | the do-while loop over this generator's draws |
| Random.Step48 | random.cpp:85-86 | the 48-bit update stays below 2^48 |
| Random.Out48Range | random.cpp:87 | `next(bits)` lies in [0, 2^bits) for bits up to 31 |
| Random.Draws48 | random.cpp:84-88 | the draws of next(31) all lie in [0, 2^31) |
| Random.DrawIs48 | random.cpp:84-88 | the i-th draw is the output for the seed after i + 1 updates |
| Random.Xor64Twice | random.cpp:82 | xor with the multiplier is undone by xor with it again |
| Random.Seeded48Range | random.cpp:81-83 | a non-negative seed argument gives a state below 2^35 |
| Random.Random48.constructor | random.h:79 | `Random48(s)` seeds as `setSeed(s)` does |
| Random.Random48.Default | random.h:79 | the default argument is 1 |
| Random.Random48.SetSeed | random.cpp:81-83 | stores nSeed xor 0x5DEECE66D, from which nSeed comes back |
| Random.Random48.Next | random.cpp:84-88 | the seed becomes (seed * 0x5DEECE66D + 0xB) mod 2^48, and the result is its top bits |
| Random.Random48.NextInt | random.cpp:14-25 | the value of `nextInt` for this generator's draws |
| Random.Random48.RejectDraws | random.cpp:19-24 | the do-while loop over this generator's draws |
| Random.ReduceSeeds | random.cpp:142-154 | after the reduction loops ij lies in [0, 31328] and kl in [0, 30081] |
| Random.InnerSeeds | random.cpp:156-159 | the four small generators start at i, j in [2, 178], k in [1, 178] and l in [0, 168] |
| Random.DownNClosedForm | random.cpp:196-201 | after n steps an index has moved n places down the cycle 97, 96, ..., 1 |
| Random.LagKept | random.cpp:180-181 | from 97 and 33 the two indices stay 64 apart modulo 97 |
| Random.RandomMz.constructor | random.h:94 | `RandomMz(s)` seeds as `setSeed(s)` does: the reduced seeds of s, the starting values they give, i97 = 97, j97 = 33 and no cached gaussian |
| Random.RandomMz.Default | random.h:94 | the default argument is 1: the reduced seeds are those of 1, with i97 = 97 and j97 = 33 |
| Random.RandomMz.SetSeed | random.cpp:140-182 | records the reduced seeds ij and kl and the starting values i, j, k and l that the `u` fill computes from them, and ends with i97 = 97 and j97 = 33, both indices valid for `u` |
| Random.RandomMz.NextIndices | random.cpp:196-201 | decrements both indices with wrap-around to 97, so `u[i97-1]` and `u[j97-1]` stay in bounds |
| Vector1d.Length | vector1d.h:34 | the length of a span narrower than the int range is max - min |
| Vector1d.Intersection | vector1d.h:82-84 | contains x exactly when both spans do |
| Vector1d.Union | vector1d.h:86-88 | contains every point of both spans, and lies inside every span that holds both |
| Vector1d.Spanning | vector1d.h:61-65 | min <= max, and it contains exactly the points between a and b |
| Vector1d.Added | vector1d.h:71-74 | the point is contained afterwards, and so is every point before |
| Vector1d.EmptyAndInfinity | vector1d.h:47-56 | `empty()` is empty and contains no int; `infinity()` is not empty and contains every int |
| Vector1d.AddedSpanIsUnion | vector1d.h:76-79 | adding a span is the union with it |
| Vector1d.AddedToEmpty | vector1d.h:71-74 | adding a point to the empty span gives the one-point span |
| Vector1d.UnionWithEmpty | vector1d.h:86-88 | the union with the empty span is the other span |
| Vector1d.ShiftedLength | vector1d.h:33-34 | shifting keeps `getLength`, wrap-around included |
| Vector1d.ShiftedContains | vector1d.h:33 | without overflow, the shifted span contains the shifted points |
| Vector1d.MembershipNests | vector1d.h:92-104 | open membership implies half-open, which implies closed |
| Vector1d.ContainsSpanMeaning | vector1d.h:106-110 | for non-empty b, `contains(b)` holds exactly when the intersection is b, and exactly when every point of b is contained |
| Vector1d.IntersectsMeaning | vector1d.h:112-115 | for non-empty spans, `intersects` holds exactly when some point lies in both |
| Vector1d.IntersectsHalfMeaning | vector1d.h:120-123 | for spans with min < max, `intersectsHalf` holds exactly when the half-open intervals share a point |
| Vector1d.IntersectsOpenMeaning | vector1d.h:116-119 | for spans with min < max, `intersectsOpen` holds exactly when the intersection has min < max |
| Vector1d.Seg1i.constructor | vector1d.h:21 | a new segment is empty |
| Vector1d.Seg1i.Point | vector1d.h:22 | the one-point segment |
| Vector1d.Seg1i.Between | vector1d.h:23 | the fields as given |
| Vector1d.Seg1i.InitPoint | vector1d.h:25 | min = max = a |
| Vector1d.Seg1i.InitRange | vector1d.h:26 | as `set(a, b)` |
| Vector1d.Seg1i.InitThree | vector1d.h:27 | a span containing all three points |
| Vector1d.Seg1i.SetMinMax | vector1d.h:32 | the fields as given |
| Vector1d.Seg1i.Shift | vector1d.h:33 | both ends move by the shift, in 32-bit arithmetic, and the length is kept |
| Vector1d.Seg1i.MakeEmpty | vector1d.h:47-49 | min is INT_MAX, max is INT_MIN, and `isEmpty` holds |
| Vector1d.Seg1i.MakeInfinity | vector1d.h:51-53 | every int is contained |
| Vector1d.Seg1i.SetPoint | vector1d.h:59 | min = max = b |
| Vector1d.Seg1i.SetRange | vector1d.h:61-65 | the span from the smaller to the larger argument |
| Vector1d.Seg1i.ExpandMin | vector1d.h:67 | min drops to b if b is below it |
| Vector1d.Seg1i.ExpandMax | vector1d.h:68 | max rises to b if b is above it |
| Vector1d.Seg1i.AddPoint | vector1d.h:71-74 | the point is added |
| Vector1d.Seg1i.AddSpan | vector1d.h:76-79 | the span becomes the union with b |
| Matrix.SwapTwice | matrixT.h:125-133 | swapping rows r1 and r2 twice restores the matrix, and the order of the two rows does not matter |
| Matrix.SwapPermutes | matrixT.h:125-133 | a swap keeps the same rows |
| Matrix.ScaleUndone | matrixT.h:141-145 | scaling a row by a non-zero s, then by 1/s, restores it |
| Matrix.ScaleAddUndone | matrixT.h:146-150 | adding s times another row, then -s times it, restores the row |
| Matrix.TransposeTwice | matrixT.h:77-80 | transposing twice gives the matrix back |
| Matrix.ColumnIsTransposedRow | matrixT.h:152-156 | setting a column is setting the row of the transpose |
| Matrix.DiagonalTransposed | matrixT.h:254-258 | the identity pattern is its own transpose |
| Matrix.DiagonalIsScaledIdentity | matrixT.h:36 | `MatrixT(x)` is the identity scaled by x |
| Matrix.SumCommutes | matrixT.h:160-164 | `add` does not depend on the order of the operands |
| Matrix.DotCommutes | matrixT.h:237-239 | the inner product is symmetric |
| Matrix.DotPlus | matrixT.h:237-239 | the inner product distributes over the entrywise sum |
| Matrix.ApplyIdentity | matrixT.h:245-252 | applying the identity returns the vector |
| Matrix.ApplySum | matrixT.h:245-252 | applying a sum of matrices sums what each gives |
| Matrix.TimesIdentity | matrixT.h:231-242 | the product with the identity, on either side, is the matrix |
| Matrix.TimesTransposed | matrixT.h:231-242 | the transpose of a product is the product of the transposes in the other order |
| Matrix.OverlayWhole | matrixT.h:273-281 | copying onto a matrix of the same size gives the source |
| Matrix.OverlayTwice | matrixT.h:273-281 | copying the same source twice changes nothing more |
| Matrix.MatrixT.constructor | matrixT.h:35 | a new matrix of the given size |
| Matrix.MatrixT.Scaling | matrixT.h:36 | x on the diagonal, 0 elsewhere |
| Matrix.MatrixT.Identity | matrixT.h:254-258 | every entry is x on the diagonal and 0 off it |
| Matrix.MatrixT.SetRow | matrixT.h:120-124 | row r takes the first `cols` values; every other row is unchanged |
| Matrix.MatrixT.SwapRow | matrixT.h:125-133 | rows r1 and r2 exchange; every other row is unchanged |
| Matrix.MatrixT.ScaleRow | matrixT.h:141-145 | row r is multiplied by s; the rest is unchanged |
| Matrix.MatrixT.ScaleAddRow | matrixT.h:146-150 | row rDest gains s times row rSrc, even when they are the same row; the rest is unchanged |
| Matrix.MatrixT.SetColumn | matrixT.h:152-156 | column c takes the first `rows` values; every other entry is unchanged |
| Matrix.MatrixT.Scale | matrixT.h:134-139 | `operator*=`: every entry is multiplied by s |
| Matrix.MatrixT.Add | matrixT.h:160-164 | every entry gains the entry of m, also when m is this matrix |
| Matrix.MatrixT.Transpose | matrixT.h:77-80 | dest(c, r) becomes this(r, c), for every r and c |
| Matrix.MatrixT.RowTimesColumn | matrixT.h:237-239 | the inner loop sums row r times column c |
| Matrix.MatrixT.Product | matrixT.h:231-242 | dest(r, c) becomes the sum over inner of this(r, inner) * by(inner, c) |
| Matrix.MatrixT.Apply | matrixT.h:245-252 | out[r] becomes the sum over c of this(r, c) * in[c]; later entries of `out` are unchanged |
| Matrix.Copy | matrixT.h:273-281 | the top-left min(srows, drows) x min(scols, dcols) block of d takes the entries of s, and the rest of d is unchanged |
| Matrix.NewSum | matrixT.h:100-104 | `operator+` returns a new matrix holding a + b |
| Matrix.NewProduct | matrixT.h:105-110 | `operator*` returns a new matrix holding a times b |
| Webconfig.RunFlags | webconfig.h:164-170 | after any sequence of `WEBCONFIG_THIS` executions, the `added` flags are set for exactly the call sites that ran |
| Webconfig.RunAppends | webconfig.cpp:25-27 | the registry only grows, and what was registered stays in its place |
| Webconfig.RunRegistersOncePerSite | webconfig.h:164-170 | the registry grows by one entry per call site that had not run before, however often each runs |
| Webconfig.RunAgain | webconfig.h:166-167 | running call sites that already ran registers nothing |
| Webconfig.RegisteredLast | webconfig.cpp:30-33 | a newly registered object is visited after all earlier ones, under its registration name (webconfig.h:157) |
| Webconfig.SaveRestore | webconfig.cpp:426-452 | restoring the saved file into objects of the same shapes brings back every saved value and consumes the whole file |
| Webconfig.RestoreMissing | webconfig.cpp:426-438 | restoring from a missing file changes nothing |
| Webconfig.Registry.constructor | webconfig.cpp:22 | the registry starts empty |
| Webconfig.Registry.AddPup | webconfig.cpp:25-27 | appends the object at the end |
| Webconfig.Registry.This | webconfig.h:164-170 | registers the object the first time its call site runs, and never again |
| Webconfig.Registry.WriteAll | webconfig.cpp:30-33 | the binary writer receives the bytes of every registered object, in registration order |
| Webconfig.Registry.ReadAll | webconfig.cpp:30-33 | every registered object is read in place, in registration order |
| Webconfig.Registry.ApplyAll | webconfig.cpp:30-33 | the name/value applier visits every registered object in order, until something throws |
| Webconfig.Registry.RenderAll | webconfig.cpp:30-33 | the HTML renderer draws every registered object in order |
| Webconfig.Registry.Save | webconfig.cpp:442-452 | the file becomes the bytes of every registered object |
| Webconfig.Registry.Restore | webconfig.cpp:426-438 | every registered object is read back from the file |
| Webconfig.AnswerRouting | webconfig.cpp:378-397 | `respond` declines exactly the paths other than `/`, `/` + form name and `/` + form name + `?...`, and then changes nothing |
| Webconfig.InitialPage | webconfig.cpp:378-381 | `/` and `/` + form name get page_start, the form of the current values and page_end |
| Webconfig.SubmittedParameters | webconfig.cpp:383-386 | the parameters are what follows `/` + form name + `?` |
| Webconfig.AnswerSubmitted | webconfig.cpp:383-396 | a submission is answered with what `apply_parameters` makes of it, followed by the form and page_end when it returns true |
| Webconfig.NothingToApply | webconfig.cpp:404 | parameters shorter than 2 characters change nothing and the form is shown |
| Webconfig.NoEqualsSign | webconfig.cpp:405-406 | without `=` the page carries the missing-equals error and no form; nothing is changed or saved |
| Webconfig.SplitAtEquals | webconfig.cpp:405-408 | the name is the text before the first `=`, the value the text after it |
| Webconfig.MissingField | webconfig.cpp:414-421 | a name that matches no leaf changes nothing, yet the file is saved; the page carries `<P>ERROR! Missing field '<name>'!` and neither the form nor page_end |
| Webconfig.ApplySetsField | webconfig.cpp:407-418 | a name that matches leaves (none a vector `length`) gives them the submitted value, keeps every other leaf and shape, saves and returns true |
| Webconfig.FieldSet | webconfig.cpp:383-396 | the page for such a submission shows the form with the new values |
| Webconfig.Editor.constructor | webconfig.cpp:349-365 | page_start is the title, the refresh form and the prompt; page_end closes the body |
| Webconfig.Editor.ApplyParams | webconfig.cpp:402-422 | the registry, the file, the result and the appended html are those the specification function gives |
| Webconfig.Editor.Compose | webconfig.cpp:372-395 | builds the answer page for the path, updating and saving the registry as it goes |
| Webconfig.Editor.Respond | webconfig.cpp:367-398 | the page goes out through `send("text/html", html)` exactly when the path is the editor's; otherwise nothing is sent |

## Left out

- Sockets: the `skt_*` calls of webserver.cpp and webserver.h. The received lines are a parameter, and the sent bytes are a string the client accumulates.
- `http_server`, `get_ip` and `get_port`: the listening socket and its accept loop are I/O, and the address and port are only stored there.
- The threaded server, and the `porlock` that serialises `respond`: concurrency. `respond` is modelled sequentially.
- `webconfig_init`: server construction, browser launch and registering responders are process glue.
- Console logging (`std::cout`): it has no effect on state.
- Webconfig.Registry.This and Webconfig.Registry.AddPup: the source's `pup_this_object_t` keeps a reference `T &obj` to the program's variable, and the model's registry keeps the value in `entries`. An entry stands for its registered variable, and the program's writes to that variable between requests are writes to `entries`. One variable registered at two call sites is two aliases in the source, which a restore fills from the second record and a save writes twice; the model keeps two independent entries and does not capture that aliasing.
- File streams:
  - `webconfig_save` and `webconfig_restore` treat the file as a byte sequence. Open failures are not modelled, nor are the stream exceptions that the `try`/`catch` would swallow.
  - The source writes an `int` in the host's memory order. The model assumes a little-endian host, so a 32-bit word is its four bytes least significant first.
- Floats: a float is its 4-byte pattern. `atof` and the `"%f"` formatting are function parameters of the model.
- `Random::nextFloat`, `nextDouble`, `nextGaussian` and `nextFloatInline`: floating point.
- The `u[]`, `c`, `cd` and `cm` arithmetic of `RandomMz`, and `RandomMz::next`, `nextInt` and `nextFloat`: floating point.
- Random.Random32.NextInt: the rejection loop has no bound in the source; the model gives up with None after `fuel` draws. Random.Random48.NextInt, Random.Random32.RejectDraws and Random.Random48.RejectDraws do the same.
- `atoi` outside plain digits: the model reads white space, a sign and digits, and wraps an overflowing value to 32 bits, where C leaves overflow undefined.
- Strings and vectors of 2^31 characters or more, whose lengths would not fit the source's `int` variables.
  - Webconfig.Registry.ApplyAll, Webconfig.Editor.ApplyParams, Webconfig.Editor.Compose and Webconfig.Editor.Respond require submitted texts and paths shorter than that.
  - NameValuePup.EditBody and the other Edit lemmas require the same of the request text.
- `MatrixT::solve`, `invert`, `inverse`, `operator==`, `operator!=` and `matrixMax`: floating-point pivoting and tolerance compares.
- The `copy` variant taking a conversion function (matrixT.h:289-299): it applies foreign code.
- Entries are exact reals, not the source's `float`/`double`, so rounding is left out.
- `getRow`, `operator()` and `operator[]`: they only expose the storage.
- Matrix.MatrixT.Transpose requires a destination distinct from this matrix. The source's `dest` has the transposed size and is another object except for square matrices; transposing a square matrix into itself is not modelled.
- Matrix.MatrixT.Product requires `dest` to be distinct from both operands, which `operator*` guarantees; a product written into an operand is not modelled.
- Matrix.NewProduct requires square matrices. `operator*` passes two operands of one shape to `product`, which compiles only when rows equals cols.
- Matrix.MatrixT.SetRow, Matrix.MatrixT.SetColumn and Matrix.MatrixT.Apply take their `const real *` inputs as sequences, so those inputs cannot alias the matrix.
- Matrix.MatrixT.constructor: the entries of `MatrixT()` are uninitialised in the source; the model states nothing about them.
- Vector1d.Seg1i: `getMin`, `getMax`, `setMin`, `setMax`, `getHiValue` and `getLoValue` only read or write one field; they are folded into `Value()` and the constants IntMax and IntMin.
