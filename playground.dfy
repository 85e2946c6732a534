/**
 * The pure part of the playground helper `show` (backend/resources/playground.py):
 * which inputs it renders, how an image becomes an `<img>` element with a
 * base64 data URI (section 3 of RFC 2397), and how the element is wrapped
 * into one delimited HTML document. Printing, reading the file, encoding it
 * in base64 and rendering a figure are effects; their results are inputs here.
 */
module Playground {
  import opened Wrappers

  /** The marker that opens a document block. */
  const DoctypeMarker: string := "<!DOCTYPE html>"

  /** What `add_doctype` puts before the fragment. */
  const Opening: string := "<!DOCTYPE html>\n<html>"

  /** The marker that closes a document block, and what `add_doctype` puts after the fragment. */
  const ClosingMarker: string := "</html>"

  /** `add_doctype(html)`: the fragment between the opening and the closing marker. */
  function AddDoctype(html: string): (page: string)
    ensures DoctypeMarker <= Opening <= page
    ensures |page| == |Opening| + |html| + |ClosingMarker|
    ensures page[|page| - |ClosingMarker|..] == ClosingMarker
    ensures page[|Opening|..|page| - |ClosingMarker|] == html
  {
    Opening + html + ClosingMarker
  }

  /** The fragment inside a page that `add_doctype` produced, if it is one. */
  function StripDoctype(page: string): Option<string> {
    if |Opening| + |ClosingMarker| <= |page| && Opening <= page && page[|page| - |ClosingMarker|..] == ClosingMarker
    then Some(page[|Opening|..|page| - |ClosingMarker|])
    else None
  }

  lemma StripAddDoctype(html: string)
    ensures StripDoctype(AddDoctype(html)) == Some(html)
  {
  }

  lemma AddStripDoctype(page: string, html: string)
    requires StripDoctype(page) == Some(html)
    ensures AddDoctype(html) == page
  {
    var n := |page| - |ClosingMarker|;
    assert page == page[..|Opening|] + page[|Opening|..n] + page[n..];
  }

  // ---------------------------------------------------------------------
  // Case-insensitive search, as a reader of the output looks for the markers.

  /** Python's `str.lower` on ASCII letters. */
  function LowerAscii(c: char): (r: char)
    ensures 'A' <= c <= 'Z' ==> 'a' <= r <= 'z'
    ensures !('A' <= c <= 'Z') ==> r == c
  {
    if 'A' <= c <= 'Z' then (c as int + 32) as char else c
  }

  function Lower(s: string): (r: string)
    ensures |r| == |s| && forall i :: 0 <= i < |s| ==> r[i] == LowerAscii(s[i])
  {
    seq(|s|, i requires 0 <= i < |s| => LowerAscii(s[i]))
  }

  /** `pattern` occurs in `s` at position `i`, ignoring the case of ASCII letters. */
  predicate OccursAt(s: string, i: nat, pattern: string) {
    i + |pattern| <= |s| && forall k :: 0 <= k < |pattern| ==> LowerAscii(s[i + k]) == LowerAscii(pattern[k])
  }

  /** `s` holds no closing marker in any letter case. */
  ghost predicate NoClosingMarker(s: string) {
    forall i: nat :: !OccursAt(s, i, ClosingMarker)
  }

  /** `<` occurs in the closing marker only as its first character, in any letter case. */
  lemma ClosingMarkerOpensOnce(j: nat)
    requires 0 < j < |ClosingMarker|
    ensures LowerAscii(ClosingMarker[j]) != '<'
  {
    assert ClosingMarker == ['<', '/', 'h', 't', 'm', 'l', '>'];
  }

  /**
   * The producer side of the "one delimited document block" contract: when
   * the fragment holds no closing marker, the page starts with the opening
   * marker and its only closing marker is the one at its very end, so the
   * first block from `<!DOCTYPE html>` to the first `</html>` is the whole page.
   */
  lemma AddDoctypeIsOneBlock(html: string)
    requires NoClosingMarker(html)
    ensures var page := AddDoctype(html);
            && OccursAt(page, 0, DoctypeMarker)
            && forall i: nat :: OccursAt(page, i, ClosingMarker) <==> i == |page| - |ClosingMarker|
  {
    var page := AddDoctype(html);
    var e := |Opening| + |html|;
    forall i: nat | OccursAt(page, i, ClosingMarker) ensures i == e {
      ClosingMarkerStart(page, i);
      if i < |Opening| {
        NoClosingMarkerInOpening(page, i);
      } else if i + |ClosingMarker| <= e {
        ClosingMarkerInFragment(html, i);
      } else if i < e {
        ClosingMarkerOpensOnce(e - i);
      }
    }
    assert page[e..] == ClosingMarker;
    assert OccursAt(page, e, ClosingMarker) by {
      forall k | 0 <= k < |ClosingMarker| ensures page[e + k] == ClosingMarker[k] {
        assert page[e..][k] == page[e + k];
      }
    }
    assert OccursAt(page, 0, DoctypeMarker) by {
      forall k | 0 <= k < |DoctypeMarker| ensures page[k] == DoctypeMarker[k] {
        assert page[k] == Opening[k];
      }
    }
  }

  /** A closing marker starts with `</` in any letter case. */
  lemma ClosingMarkerStart(s: string, i: nat)
    requires OccursAt(s, i, ClosingMarker)
    ensures s[i] == '<' && s[i + 1] == '/'
  {
    assert ClosingMarker[0] == '<' && ClosingMarker[1] == '/';
    assert LowerAscii(s[i + 0]) == LowerAscii(ClosingMarker[0]);
    assert LowerAscii(s[i + 1]) == LowerAscii(ClosingMarker[1]);
  }

  /** The opening holds no `</`. */
  lemma NoClosingMarkerInOpening(page: string, i: nat)
    requires Opening <= page && i < |Opening| && i + 1 < |page|
    ensures !(page[i] == '<' && page[i + 1] == '/')
  {
    assert Opening == ['<', '!', 'D', 'O', 'C', 'T', 'Y', 'P', 'E', ' ', 'h', 't', 'm', 'l', '>', '\n', '<', 'h', 't', 'm', 'l', '>'];
    assert page[i] == Opening[i];
    if i + 1 < |Opening| {
      assert page[i + 1] == Opening[i + 1];
    }
  }

  /** A closing marker inside the fragment part of a page is one of the fragment's. */
  lemma ClosingMarkerInFragment(html: string, i: nat)
    requires |Opening| <= i && i + |ClosingMarker| <= |Opening| + |html|
    requires OccursAt(AddDoctype(html), i, ClosingMarker)
    ensures OccursAt(html, i - |Opening|, ClosingMarker)
  {
    var page := AddDoctype(html);
    var j := i - |Opening|;
    var front := Opening + html;
    assert page == front + ClosingMarker;
    forall k | 0 <= k < |ClosingMarker| ensures LowerAscii(html[j + k]) == LowerAscii(ClosingMarker[k]) {
      assert page[i + k] == front[i + k] == html[j + k];
    }
  }

  // ---------------------------------------------------------------------
  // Which files become images.

  /** `s.rfind(c)`: the last index of `c` in `s`, or -1. */
  function RFind(s: string, c: char): (i: int)
    ensures -1 <= i < |s|
    ensures i >= 0 ==> s[i] == c
    ensures forall k :: i < k < |s| ==> s[k] != c
    decreases |s|
  {
    if s == [] then -1
    else if s[|s| - 1] == c then |s| - 1
    else RFind(s[..|s| - 1], c)
  }

  /**
   * `os.path.splitext(path)[1]` on POSIX: from the last `.` of the last path
   * component to the end, unless that component has nothing but dots before
   * it (a hidden file such as `.bashrc` has no extension).
   */
  function Extension(path: string): (ext: string)
    ensures |ext| <= |path| && ext == path[|path| - |ext|..]
    ensures ext == [] || ext[0] == '.'
    ensures '/' !in ext && (ext == [] || '.' !in ext[1..])
  {
    var sepIndex := RFind(path, '/');
    var dotIndex := RFind(path, '.');
    if dotIndex > sepIndex && HasStem(path, sepIndex + 1, dotIndex) then
      assert forall k :: 0 <= k < |path[dotIndex..]| ==> path[dotIndex..][k] == path[dotIndex + k];
      path[dotIndex..]
    else []
  }

  /** Some character of `path[start..end]` is not a dot. */
  predicate HasStem(path: string, start: nat, end: int)
    requires end <= |path|
    decreases end - start
  {
    start < end && (path[start] != '.' || HasStem(path, start + 1, end))
  }

  /** `RFind` is pinned down by its contract: the index of the last `c`, or -1. */
  lemma RFindIs(s: string, c: char, i: int)
    requires -1 <= i < |s| && (i >= 0 ==> s[i] == c)
    requires forall k :: i < k < |s| ==> s[k] != c
    ensures RFind(s, c) == i
  {
  }

  /** A non-dot character between `start` and `end` is a stem. */
  lemma {:induction false} HasStemAt(path: string, start: nat, end: int, k: nat)
    requires start <= k < end <= |path| && path[k] != '.'
    ensures HasStem(path, start, end)
    decreases k - start
  {
    if path[start] == '.' {
      HasStemAt(path, start + 1, end, k);
    }
  }

  /** Nothing but dots is no stem. */
  lemma {:induction false} NoStem(path: string, start: nat, end: int)
    requires end <= |path|
    requires forall k | start <= k < end :: path[k] == '.'
    ensures !HasStem(path, start, end)
    decreases end - start
  {
    if start < end {
      NoStem(path, start + 1, end);
    }
  }

  /**
   * A last path component made of a stem with a non-dot character and an
   * extension `.ext` has that extension.
   */
  lemma ExtensionOfName(dir: string, stem: string, ext: string)
    requires dir == [] || dir[|dir| - 1] == '/'
    requires '/' !in stem && '/' !in ext
    requires |ext| > 0 && ext[0] == '.' && '.' !in ext[1..]
    requires exists k :: 0 <= k < |stem| && stem[k] != '.'
    ensures Extension(dir + stem + ext) == ext
  {
    var path := dir + stem + ext;
    var dotIndex := |dir| + |stem|;
    forall k | |dir| <= k < |path| ensures path[k] != '/' {
      if k < dotIndex {
        assert path[k] == stem[k - |dir|];
      } else {
        assert path[k] == ext[k - dotIndex];
      }
    }
    RFindIs(path, '/', |dir| - 1);
    forall k | dotIndex < k < |path| ensures path[k] != '.' {
      assert path[k] == ext[1..][k - dotIndex - 1];
    }
    RFindIs(path, '.', dotIndex);
    var j :| 0 <= j < |stem| && stem[j] != '.';
    assert path[|dir| + j] == stem[j];
    HasStemAt(path, |dir|, dotIndex, |dir| + j);
    assert path[dotIndex..] == ext;
  }

  /**
   * A last path component in which no dot follows a non-dot character
   * (`file`, `.bashrc`, `..png`) has no extension.
   */
  lemma ExtensionWithoutStem(dir: string, name: string)
    requires dir == [] || dir[|dir| - 1] == '/'
    requires '/' !in name
    requires forall k | 0 <= k < |name| && name[k] != '.' :: '.' !in name[k..]
    ensures Extension(dir + name) == []
  {
    var path := dir + name;
    forall k | |dir| <= k < |path| ensures path[k] != '/' {
      assert path[k] == name[k - |dir|];
    }
    RFindIs(path, '/', |dir| - 1);
    var dotIndex := RFind(path, '.');
    if dotIndex > |dir| - 1 {
      forall k | |dir| <= k < dotIndex ensures path[k] == '.' {
        assert path[k] == name[k - |dir|];
        assert name[k - |dir|..][dotIndex - k] == path[dotIndex];
      }
      NoStem(path, |dir|, dotIndex);
    }
  }

  /** `dir/cat.PNG` has the extension `.PNG`, which lower-cases to a PNG image. */
  lemma UpperCasePngExample()
    ensures Extension("dir/cat.PNG") == ".PNG"
    ensures PathImageMime("dir/cat.PNG") == Some("image/png")
  {
    assert "dir/cat.PNG" == "dir/" + "cat" + ".PNG";
    assert "cat"[0] != '.';
    ExtensionOfName("dir/", "cat", ".PNG");
    assert Lower(".PNG") == ".png";
  }

  /** `photo.jpeg` is a JPEG image. */
  lemma JpegExample()
    ensures Extension("photo.jpeg") == ".jpeg"
    ensures PathImageMime("photo.jpeg") == Some("image/jpeg")
  {
    assert "photo.jpeg" == [] + "photo" + ".jpeg";
    assert "photo"[0] != '.';
    ExtensionOfName([], "photo", ".jpeg");
    assert Lower(".jpeg") == ".jpeg";
  }

  /** A hidden file such as `.bashrc` has no extension, so it is no image. */
  lemma HiddenFileExample()
    ensures Extension(".bashrc") == [] && PathImageMime(".bashrc") == None
  {
    assert ".bashrc" == [] + ".bashrc";
    ExtensionWithoutStem([], ".bashrc");
  }

  /** A dot in a directory name is no extension of the file. */
  lemma DottedDirectoryExample()
    ensures Extension("a.d/file") == [] && PathImageMime("a.d/file") == None
  {
    assert "a.d/file" == "a.d/" + "file";
    ExtensionWithoutStem("a.d/", "file");
  }

  const ImageExtensions: seq<string> := [".png", ".gif", ".jpg", ".jpeg"]

  /**
   * The filter and the MIME choice for a lower-cased extension: `.png` and
   * `.gif` have their own type, `.jpg` and `.jpeg` are JPEG, and any other
   * extension is no image.
   */
  function ImageMime(ext: string): (mime: Option<string>)
    ensures mime.Some? <==> ext in ImageExtensions
    ensures mime == Some("image/png") <==> ext == ".png"
    ensures mime == Some("image/gif") <==> ext == ".gif"
    ensures mime == Some("image/jpeg") <==> ext == ".jpg" || ext == ".jpeg"
  {
    if ext in ImageExtensions then
      Some(if ext == ".png" then "image/png" else if ext == ".gif" then "image/gif" else "image/jpeg")
    else None
  }

  /** The MIME type `show` gives the file at `path`, if it renders it as an image. */
  function PathImageMime(path: string): (mime: Option<string>)
    ensures mime.Some? <==> Lower(Extension(path)) in ImageExtensions
    ensures mime.Some? ==> IsImageMime(mime.value)
  {
    ImageMime(Lower(Extension(path)))
  }

  /** Two strings that agree up to the case of ASCII letters. */
  predicate SameUpToCase(p: string, q: string) {
    |p| == |q| && forall i :: 0 <= i < |p| ==> LowerAscii(p[i]) == LowerAscii(q[i])
  }

  /** Case never changes where a character that is not a letter sits. */
  lemma {:induction false} RFindUpToCase(p: string, q: string, c: char)
    requires SameUpToCase(p, q)
    requires !('A' <= c <= 'Z') && !('a' <= c <= 'z')
    ensures RFind(p, c) == RFind(q, c)
    decreases |p|
  {
    if p != [] {
      var n := |p| - 1;
      assert LowerAscii(p[n]) == LowerAscii(q[n]);
      assert p[n] == c <==> q[n] == c;
      RFindUpToCase(p[..n], q[..n], c);
    }
  }

  /** Case never changes which characters are dots. */
  lemma DotsUpToCase(p: string, q: string)
    requires SameUpToCase(p, q)
    ensures forall k :: 0 <= k < |p| ==> (p[k] == '.' <==> q[k] == '.')
  {
    forall k | 0 <= k < |p| ensures p[k] == '.' <==> q[k] == '.' {
      assert LowerAscii(p[k]) == LowerAscii(q[k]);
    }
  }

  lemma {:induction false} HasStemUpToCase(p: string, q: string, start: nat, end: int)
    requires |p| == |q| && end <= |p|
    requires forall k :: 0 <= k < |p| ==> (p[k] == '.' <==> q[k] == '.')
    ensures HasStem(p, start, end) == HasStem(q, start, end)
    decreases end - start
  {
    if start < end {
      HasStemUpToCase(p, q, start + 1, end);
    }
  }

  lemma SuffixUpToCase(p: string, q: string, start: nat)
    requires SameUpToCase(p, q) && start <= |p|
    ensures SameUpToCase(p[start..], q[start..])
  {
    forall i | 0 <= i < |p| - start
      ensures LowerAscii(p[start..][i]) == LowerAscii(q[start..][i])
    {
      assert LowerAscii(p[start + i]) == LowerAscii(q[start + i]);
    }
  }

  /** The extension of two paths that agree up to case agree up to case. */
  lemma ExtensionUpToCase(p: string, q: string)
    requires SameUpToCase(p, q)
    ensures SameUpToCase(Extension(p), Extension(q))
  {
    RFindUpToCase(p, q, '/');
    RFindUpToCase(p, q, '.');
    var sepIndex := RFind(p, '/');
    var dotIndex := RFind(p, '.');
    DotsUpToCase(p, q);
    HasStemUpToCase(p, q, sepIndex + 1, dotIndex);
    if dotIndex > sepIndex && HasStem(p, sepIndex + 1, dotIndex) {
      assert Extension(p) == p[dotIndex..] && Extension(q) == q[dotIndex..];
      SuffixUpToCase(p, q, dotIndex);
    } else {
      assert Extension(p) == [] && Extension(q) == [];
    }
  }


  lemma LowerUpToCase(p: string, q: string)
    requires SameUpToCase(p, q)
    ensures Lower(p) == Lower(q)
  {
  }

  /** The image check is case-insensitive: `photo.PNG` is a PNG image like `photo.png`. */
  lemma ImageCheckIgnoresCase(p: string, q: string)
    requires SameUpToCase(p, q)
    ensures PathImageMime(p) == PathImageMime(q)
  {
    ExtensionUpToCase(p, q);
    LowerUpToCase(Extension(p), Extension(q));
  }

  // ---------------------------------------------------------------------
  // The image element: an `<img>` whose source is a base64 data URI.

  /** A `data:` URI with a base64 payload (section 3 of RFC 2397). */
  function DataUri(mime: string, payload: string): string {
    DataScheme + mime + Base64Parameter + "," + payload
  }

  const DataScheme: string := "data:"
  const Base64Parameter: string := ";base64"

  /** The first index of `c` in `s`, or `|s|`. */
  function Find(s: string, c: char): (i: nat)
    ensures i <= |s| && (i < |s| ==> s[i] == c)
    ensures forall k :: 0 <= k < i ==> s[k] != c
    decreases |s|
  {
    if s == [] then 0
    else if s[0] == c then 0
    else 1 + Find(s[1..], c)
  }

  /** Reads a base64 data URI back into its media type and its payload. */
  function ParseDataUri(uri: string): Option<(string, string)> {
    if DataScheme <= uri then
      var rest := uri[|DataScheme|..];
      var comma := Find(rest, ',');
      if comma < |rest| && |Base64Parameter| <= comma && rest[comma - |Base64Parameter|..comma] == Base64Parameter
      then Some((rest[..comma - |Base64Parameter|], rest[comma + 1..]))
      else None
    else None
  }

  /** The first comma of a data URI's body is the one after the media type and `;base64`. */
  lemma FindCommaAfterMime(mime: string, payload: string)
    requires ',' !in mime
    ensures Find(mime + Base64Parameter + "," + payload, ',') == |mime| + |Base64Parameter|
  {
    var rest := mime + Base64Parameter + "," + payload;
    var comma := |mime| + |Base64Parameter|;
    assert rest[comma] == ',';
    forall k | 0 <= k < comma ensures rest[k] != ',' {
      if k < |mime| {
        assert rest[k] == mime[k];
      } else {
        assert rest[k] == Base64Parameter[k - |mime|];
      }
    }
  }

  /** A media type without a comma is read back from its data URI, with the payload. */
  lemma ParseDataUriOfDataUri(mime: string, payload: string)
    requires ',' !in mime
    ensures ParseDataUri(DataUri(mime, payload)) == Some((mime, payload))
  {
    var uri := DataUri(mime, payload);
    var rest := mime + Base64Parameter + "," + payload;
    assert uri == DataScheme + rest;
    assert uri[|DataScheme|..] == rest;
    FindCommaAfterMime(mime, payload);
    var comma := |mime| + |Base64Parameter|;
    assert rest[comma - |Base64Parameter|..comma] == Base64Parameter;
    assert rest[..comma - |Base64Parameter|] == mime;
    assert rest[comma + 1..] == payload;
  }

  /** Every URI that reads back is the data URI of what it reads back to. */
  lemma DataUriOfParseDataUri(uri: string, mime: string, payload: string)
    requires ParseDataUri(uri) == Some((mime, payload))
    ensures DataUri(mime, payload) == uri
  {
    var rest := uri[|DataScheme|..];
    var comma := Find(rest, ',');
    var b := comma - |Base64Parameter|;
    assert mime == rest[..b] && payload == rest[comma + 1..];
    assert rest[b..comma] == Base64Parameter && rest[comma..comma + 1] == ",";
    assert rest == rest[..b] + rest[b..comma] + rest[comma..comma + 1] + rest[comma + 1..];
    assert uri == uri[..|DataScheme|] + rest;
  }

  const ImageOpen: string := "<img src=\""
  const ImageClose: string := "\" />"

  /** The element `show` prints for an image: `<img src="data:MIME;base64,PAYLOAD" />`. */
  function ImageElement(mime: string, payload: string): string {
    ImageOpen + DataUri(mime, payload) + ImageClose
  }

  /** The `src` attribute of an element written as `ImageElement` writes it. */
  function ImageSource(element: string): Option<string> {
    if |ImageOpen| + |ImageClose| <= |element| && ImageOpen <= element
       && element[|element| - |ImageClose|..] == ImageClose
    then Some(element[|ImageOpen|..|element| - |ImageClose|])
    else None
  }

  lemma ImageSourceOfImageElement(mime: string, payload: string)
    ensures ImageSource(ImageElement(mime, payload)) == Some(DataUri(mime, payload))
  {
    var uri := DataUri(mime, payload);
    var element := ImageElement(mime, payload);
    assert element[..|ImageOpen|] == ImageOpen;
    assert element[|element| - |ImageClose|..] == ImageClose;
    assert element[|ImageOpen|..|element| - |ImageClose|] == uri;
  }

  /** Reads a page back into the media type and the payload of its image. */
  function ReadImagePage(page: string): Option<(string, string)> {
    match StripDoctype(page)
    case None => None
    case Some(element) =>
      match ImageSource(element)
      case None => None
      case Some(uri) => ParseDataUri(uri)
  }

  /** An image page reads back to the media type and the payload it was written from. */
  lemma ReadImagePageOfImagePage(mime: string, payload: string)
    requires ',' !in mime
    ensures ReadImagePage(AddDoctype(ImageElement(mime, payload))) == Some((mime, payload))
  {
    StripAddDoctype(ImageElement(mime, payload));
    ImageSourceOfImageElement(mime, payload);
    ParseDataUriOfDataUri(mime, payload);
  }

  /** The characters `base64.b64encode` writes. */
  predicate IsBase64(s: string) {
    forall k :: 0 <= k < |s| ==> ('A' <= s[k] <= 'Z') || ('a' <= s[k] <= 'z') || ('0' <= s[k] <= '9') || s[k] == '+' || s[k] == '/' || s[k] == '='
  }

  /** The media types `show` writes. */
  predicate IsImageMime(mime: string) {
    mime == "image/png" || mime == "image/gif" || mime == "image/jpeg"
  }

  lemma ImageMimeIsPlain(mime: string)
    requires IsImageMime(mime)
    ensures ',' !in mime && '<' !in mime
  {
    assert "image/png" == ['i', 'm', 'a', 'g', 'e', '/', 'p', 'n', 'g'];
    assert "image/gif" == ['i', 'm', 'a', 'g', 'e', '/', 'g', 'i', 'f'];
    assert "image/jpeg" == ['i', 'm', 'a', 'g', 'e', '/', 'j', 'p', 'e', 'g'];
  }

  lemma Base64IsPlain(payload: string)
    requires IsBase64(payload)
    ensures '<' !in payload
  {
  }

  /**
   * An image element holds no closing marker: its one `<` opens `<img`, so
   * the page `add_doctype` makes of it is one delimited block.
   */
  lemma ImageElementHasNoClosingMarker(mime: string, payload: string)
    requires '<' !in mime && '<' !in payload
    ensures NoClosingMarker(ImageElement(mime, payload))
  {
    var element := ImageElement(mime, payload);
    var tail := "img src=\"" + DataUri(mime, payload) + ImageClose;
    assert '<' !in DataScheme && '<' !in Base64Parameter + "," && '<' !in ImageClose;
    assert DataUri(mime, payload) == DataScheme + mime + (Base64Parameter + ",") + payload;
    assert '<' !in "img src=\"";
    assert '<' !in tail;
    assert element == ['<'] + tail;
    assert ClosingMarker[0] == '<' && LowerAscii(ClosingMarker[1]) == '/';
    assert element[1] == 'i';
    forall i: nat ensures !OccursAt(element, i, ClosingMarker) {
      if 0 < i < |element| {
        assert element[i] == tail[i - 1];
      }
    }
  }

  // ---------------------------------------------------------------------
  // `show`: which of its three branches runs and what it prints.

  /**
   * What `show` learns of its argument through its three checks. `model` is
   * the HTML the visualization generates when the argument is a stormvogel
   * Model; `text` is the argument when it is a `str`; `figure` is the base64
   * encoding of the PNG that the argument's `figure` attribute saves to. It
   * is present only when that attribute exists, is callable and itself has a
   * working `savefig`, which is called on the attribute, not on its result.
   * Otherwise the figure branch prints nothing, as the `None` case shows:
   * `show(plt)` fails there with an AttributeError. The checks are
   * independent: a subclass of `str` may have a callable `figure`, for one.
   */
  datatype Value = Value(model: Option<string>, text: Option<string>, figure: Option<string>)

  /**
   * The file system as `show` sees it: each path for which `os.path.isfile`
   * holds, with the base64 encoding of the file's bytes.
   */
  type Files = map<string, string>

  /** The second branch's test: the argument is a `str` naming an existing file. */
  predicate NamesFile(v: Value, files: Files) {
    v.text.Some? && v.text.value in files
  }

  /**
   * What `show` prints, or `None` when it prints nothing. The branches are
   * tried in order and only the first that applies runs: a model prints its
   * HTML as generated, a file prints an image page when its extension is an
   * image's and nothing otherwise, and a figure prints a PNG image page.
   */
  function Show(v: Value, files: Files): Option<string> {
    if v.model.Some? then
      Some(v.model.value)
    else if NamesFile(v, files) then
      match PathImageMime(v.text.value)
      case Some(mime) => Some(AddDoctype(ImageElement(mime, files[v.text.value])))
      case None => None
    else if v.figure.Some? then
      Some(AddDoctype(ImageElement("image/png", v.figure.value)))
    else
      None
  }

  /** `show` prints exactly when one of its branches applies and that branch prints. */
  lemma ShowPrintsIff(v: Value, files: Files)
    ensures Show(v, files).Some? <==>
              || v.model.Some?
              || (NamesFile(v, files) && Lower(Extension(v.text.value)) in ImageExtensions)
              || (!NamesFile(v, files) && v.figure.Some?)
  {
  }

  /** A model is printed as generated, without a doctype, whatever else the argument is. */
  lemma ShowModelFirst(v: Value, files: Files)
    requires v.model.Some?
    ensures Show(v, files) == v.model
  {
  }

  /**
   * A file that is not an image prints nothing, even when the argument also
   * has a callable `figure`: the file branch was taken and the figure branch
   * is never tried.
   */
  lemma NonImageFileShadowsFigure(v: Value, files: Files)
    requires v.model.None? && NamesFile(v, files)
    requires Lower(Extension(v.text.value)) !in ImageExtensions
    ensures Show(v, files).None?
  {
  }

  /**
   * Every page `show` prints for a file or a figure is an image page that
   * reads back to an image media type and to the file's or the figure's
   * payload; a figure is always a PNG.
   */
  lemma ShowImagePageReadsBack(v: Value, files: Files)
    requires v.model.None? && Show(v, files).Some?
    ensures var read := ReadImagePage(Show(v, files).value);
            && read.Some?
            && IsImageMime(read.value.0)
            && (NamesFile(v, files) ==> read.value == (PathImageMime(v.text.value).value, files[v.text.value]))
            && (!NamesFile(v, files) ==> read.value == ("image/png", v.figure.value))
  {
    if NamesFile(v, files) {
      var mime := PathImageMime(v.text.value).value;
      ImageMimeIsPlain(mime);
      ReadImagePageOfImagePage(mime, files[v.text.value]);
    } else {
      ImageMimeIsPlain("image/png");
      ReadImagePageOfImagePage("image/png", v.figure.value);
    }
  }

  /**
   * When the payloads are base64, as `b64encode` writes them, every image
   * page `show` prints is one delimited block: it opens with the doctype and
   * its only closing marker is its last seven characters.
   */
  lemma ShowImagePageIsOneBlock(v: Value, files: Files)
    requires v.model.None? && Show(v, files).Some?
    requires forall path :: path in files ==> IsBase64(files[path])
    requires v.figure.Some? ==> IsBase64(v.figure.value)
    ensures var page := Show(v, files).value;
            && OccursAt(page, 0, DoctypeMarker)
            && forall i: nat :: OccursAt(page, i, ClosingMarker) <==> i == |page| - |ClosingMarker|
  {
    var mime, payload;
    if NamesFile(v, files) {
      mime, payload := PathImageMime(v.text.value).value, files[v.text.value];
    } else {
      mime, payload := "image/png", v.figure.value;
    }
    assert Show(v, files).value == AddDoctype(ImageElement(mime, payload));
    ImageMimeIsPlain(mime);
    Base64IsPlain(payload);
    ImageElementHasNoClosingMarker(mime, payload);
    AddDoctypeIsOneBlock(ImageElement(mime, payload));
  }
}
