/** The Tk preview pane (viewer_frame.py): before conversion to HTML, every Markdown image
    `![alt](path)` whose path is local is replaced by a placeholder or by the image inlined
    as a base64 data URL. */
module TkViewer {
  import opened Wrappers
  import opened Strings
  import Base64
  import DataUri

  /** What opening, converting, thumbnailing and saving an image with PIL yields:
      the saved bytes and the image's format name (None when PIL reports none), or an exception. */
  datatype LoadResult = Loaded(bytes: seq<Base64.byte>, format: Option<string>) | LoadFailed

  /** The outside world the image pass consults, keyed by the path as written in the Markdown:
      whether the file exists (after resolution against the working directory), what PIL makes
      of it, and PIL's registry from format name to MIME type (`Image.MIME`). */
  datatype Env = Env(fileExists: string -> bool, load: string -> LoadResult, mimeTypes: map<string, string>)

  const NotFoundLabel: string := "Image not found: "
  const ErrorLabel: string := "Error loading image: "
  const DefaultFormat: string := "PNG"
  const DefaultMime: string := "image/png"

  predicate IsRemote(path: string) {
    StartsWith(path, "http://") || StartsWith(path, "https://")
  }

  /** `img.format if img.format else 'PNG'`: the format PIL reports when it reports a
      non-empty one, otherwise PNG; never empty. */
  function FormatName(format: Option<string>): (name: string)
    ensures name != ""
    ensures format.Some? && format.value != "" ==> name == format.value
    ensures format.None? || format.value == "" ==> name == DefaultFormat
  {
    if format.Some? && format.value != "" then format.value else DefaultFormat
  }

  /** `Image.MIME.get(img_format, 'image/png')` */
  function MimeType(format: Option<string>, mimeTypes: map<string, string>): (mime: string)
    ensures FormatName(format) in mimeTypes ==> mime == mimeTypes[FormatName(format)]
    ensures FormatName(format) !in mimeTypes ==> mime == DefaultMime
  {
    var name := FormatName(format);
    if name in mimeTypes then mimeTypes[name] else DefaultMime
  }

  /** What `replace_with_base64` puts between the parentheses: the path itself for a remote
      image, a placeholder naming the path as written when the file is missing or PIL fails,
      and otherwise a data URL that reads back as the image's MIME type and bytes. */
  function ImageTarget(path: string, env: Env): (target: string)
    ensures IsRemote(path) ==> target == path
    ensures !IsRemote(path) && !env.fileExists(path) ==> target == NotFoundLabel + path
    ensures !IsRemote(path) && env.fileExists(path) && env.load(path).LoadFailed? ==>
              target == ErrorLabel + path
    ensures !IsRemote(path) && env.fileExists(path) && env.load(path).Loaded? ==>
              var loaded := env.load(path);
              var mime := MimeType(loaded.format, env.mimeTypes);
              StartsWith(target, DataUri.Scheme) &&
              (',' !in mime ==> DataUri.Parse(target) == Some(DataUri.Payload(mime, loaded.bytes)))
  {
    if IsRemote(path) then path
    else if !env.fileExists(path) then NotFoundLabel + path
    else match env.load(path)
      case LoadFailed => ErrorLabel + path
      case Loaded(bytes, format) =>
        var mime := MimeType(format, env.mimeTypes);
        var uri := DataUri.Build(mime, bytes);
        assert ',' !in mime ==> DataUri.Parse(uri) == Some(DataUri.Payload(mime, bytes)) by {
          if ',' !in mime {
            DataUri.ParseBuild(mime, bytes);
          }
        }
        uri
  }

  /** The Markdown image syntax `![alt](target)`. */
  function Markup(alt: string, target: string): string {
    "![" + alt + "](" + target + ")"
  }

  /** `replace_with_base64`: the match rewritten around its new target. In every branch the
      alt text is kept verbatim, and a remote image is left exactly as it was matched. */
  function ReplaceWithBase64(alt: string, path: string, env: Env): (r: string)
    ensures StartsWith(r, "![" + alt + "](") && |r| > |alt| + 4 && r[|r| - 1] == ')'
    ensures IsRemote(path) ==> r == Markup(alt, path)
  {
    var r := Markup(alt, ImageTarget(path, env));
    assert r[..|alt| + 4] == "![" + alt + "](";
    r
  }

  // ---------------------------------------------------------------------------
  // The pattern `!\[(.*?)\]\((.*?)\)`, where `.` is any character but a newline.

  /** The two characters "](" start at position j of s. */
  predicate OpensLinkAt(s: string, j: int)
    requires 0 <= j && j + 1 < |s|
  {
    s[j] == ']' && s[j + 1] == '('
  }

  /** t holds no "](". */
  predicate NoLinkOpener(t: string) {
    forall j :: 0 <= j < |t| - 1 ==> !OpensLinkAt(t, j)
  }

  /** Groups the pattern can capture: the lazy alt group stops at the first "](" and the lazy
      path group at the first ")", and neither crosses a line break. (When the path group finds
      no ")" on the line, no later "](" on that line can do better, so backtracking into the alt
      group never yields a match: the first "](" is the only candidate.) */
  predicate AreGroups(alt: string, path: string) {
    '\n' !in alt && NoLinkOpener(alt) && '\n' !in path && ')' !in path
  }

  datatype Match = Match(alt: string, path: string, end: nat)

  /** Where the alt group ends: the first "](" at or after i, unless a newline comes first. */
  function FindAltEnd(s: string, i: nat): (r: Option<nat>)
    requires i <= |s|
    ensures r.Some? ==> i <= r.value && r.value + 1 < |s| && OpensLinkAt(s, r.value)
    ensures r.Some? ==> forall j :: i <= j < r.value ==> s[j] != '\n'
    ensures r.Some? ==> forall j :: i <= j < r.value ==> !OpensLinkAt(s, j)
    decreases |s| - i
  {
    if i + 1 >= |s| then None
    else if OpensLinkAt(s, i) then Some(i)
    else if s[i] == '\n' then None
    else FindAltEnd(s, i + 1)
  }

  /** Where the path group ends: the first ")" at or after k, unless a newline comes first. */
  function FindClose(s: string, k: nat): (r: Option<nat>)
    requires k <= |s|
    ensures r.Some? ==> k <= r.value < |s| && s[r.value] == ')'
    ensures r.Some? ==> forall j :: k <= j < r.value ==> s[j] != '\n' && s[j] != ')'
    decreases |s| - k
  {
    if k == |s| then None
    else if s[k] == ')' then Some(k)
    else if s[k] == '\n' then None
    else FindClose(s, k + 1)
  }

  /** The match of the pattern starting exactly at position i, if any. */
  function MatchAt(s: string, i: nat): (r: Option<Match>)
    requires i <= |s|
    ensures r.Some? ==> i < r.value.end <= |s| && AreGroups(r.value.alt, r.value.path)
    ensures r.Some? ==> s[i..r.value.end] == Markup(r.value.alt, r.value.path)
  {
    if !(i + 1 < |s| && s[i] == '!' && s[i + 1] == '[') then None
    else match FindAltEnd(s, i + 2)
      case None => None
      case Some(j) =>
        match FindClose(s, j + 2)
        case None => None
        case Some(k) =>
          AltGroupFrom(s, i + 2, j);
          PathGroupFrom(s, j + 2, k);
          MarkupFrom(s, i, j, k);
          Some(Match(s[i + 2..j], s[j + 2..k], k + 1))
  }

  /** A stretch with no line break and no "](" is an alt group. */
  lemma AltGroupFrom(s: string, a: nat, j: nat)
    requires a <= j && j + 1 < |s|
    requires forall m :: a <= m < j ==> s[m] != '\n'
    requires forall m :: a <= m < j ==> !OpensLinkAt(s, m)
    ensures '\n' !in s[a..j] && NoLinkOpener(s[a..j])
  {
    var alt := s[a..j];
    forall m | 0 <= m < |alt|
      ensures alt[m] != '\n'
    {
      assert alt[m] == s[a + m];
    }
    forall m | 0 <= m < |alt| - 1
      ensures !OpensLinkAt(alt, m)
    {
      assert alt[m] == s[a + m] && alt[m + 1] == s[a + m + 1];
      assert !OpensLinkAt(s, a + m);
    }
  }

  /** A stretch with no line break and no ")" is a path group. */
  lemma PathGroupFrom(s: string, a: nat, k: nat)
    requires a <= k <= |s|
    requires forall m :: a <= m < k ==> s[m] != '\n' && s[m] != ')'
    ensures '\n' !in s[a..k] && ')' !in s[a..k]
  {
    var path := s[a..k];
    forall m | 0 <= m < |path|
      ensures path[m] != '\n' && path[m] != ')'
    {
      assert path[m] == s[a + m];
    }
  }

  /** The text from i to k reads `![alt](path)` around the two groups. */
  lemma MarkupFrom(s: string, i: nat, j: nat, k: nat)
    requires i + 2 <= j && j + 2 <= k < |s|
    requires s[i] == '!' && s[i + 1] == '[' && s[j] == ']' && s[j + 1] == '(' && s[k] == ')'
    ensures s[i..k + 1] == Markup(s[i + 2..j], s[j + 2..k])
  {
    assert s[i..k + 1] == s[i..i + 2] + s[i + 2..j] + s[j..j + 2] + s[j + 2..k] + s[k..k + 1];
    assert s[i..i + 2] == "![" && s[j..j + 2] == "](" && s[k..k + 1] == ")";
  }

  /** A piece of the text as `re.sub` walks it: a character no match starts at, or a match. */
  datatype Piece = Char(c: char) | Image(alt: string, path: string)

  /** Every image piece holds groups the pattern can capture. */
  predicate AllCapturable(pieces: seq<Piece>) {
    forall k :: 0 <= k < |pieces| && pieces[k].Image? ==> AreGroups(pieces[k].alt, pieces[k].path)
  }

  /** The left-to-right, non-overlapping walk of `re.sub` over s from position i. */
  function Scan(s: string, i: nat): (pieces: seq<Piece>)
    requires i <= |s|
    ensures AllCapturable(pieces)
    decreases |s| - i
  {
    if i == |s| then []
    else match MatchAt(s, i)
      case Some(m) => [Image(m.alt, m.path)] + Scan(s, m.end)
      case None => [Char(s[i])] + Scan(s, i + 1)
  }

  function PieceText(p: Piece): string {
    match p
    case Char(c) => [c]
    case Image(alt, path) => Markup(alt, path)
  }

  function PieceReplaced(p: Piece, env: Env): string {
    match p
    case Char(c) => [c]
    case Image(alt, path) => ReplaceWithBase64(alt, path, env)
  }

  /** The pieces written out as they stand in the text. */
  function Original(pieces: seq<Piece>): string {
    if pieces == [] then [] else PieceText(pieces[0]) + Original(pieces[1..])
  }

  /** The pieces written out with every match replaced by `replace_with_base64`. */
  function Substituted(pieces: seq<Piece>, env: Env): string {
    if pieces == [] then [] else PieceReplaced(pieces[0], env) + Substituted(pieces[1..], env)
  }

  /** `_process_image_paths`: `image_pattern.sub(replace_with_base64, markdown_text)`.
      A text whose images are all remote, in particular one with no "![" at all, comes out
      unchanged. */
  function ProcessImagePaths(text: string, env: Env): (r: string)
    ensures AllRemote(Scan(text, 0)) ==> r == text
    ensures !Contains(text, "![") ==> r == text
  {
    assert !Contains(text, "![") ==> AllRemote(Scan(text, 0)) by {
      if !Contains(text, "![") {
        assert text[0..] == text;
        ScanWithoutMarker(text, 0);
      }
    }
    assert AllRemote(Scan(text, 0)) ==> Substituted(Scan(text, 0), env) == text by {
      if AllRemote(Scan(text, 0)) {
        SubstitutedRemote(Scan(text, 0), env);
        ScanCovers(text, 0);
      }
    }
    Substituted(Scan(text, 0), env)
  }

  // ---------------------------------------------------------------------------
  // Properties of the walk and of the replacement.

  lemma OriginalCons(p: Piece, pieces: seq<Piece>)
    ensures Original([p] + pieces) == PieceText(p) + Original(pieces)
  {
    assert ([p] + pieces)[1..] == pieces;
  }

  /** A piece written out as s[i..e], followed by pieces written out as s[e..]. */
  lemma CoversJoin(s: string, i: nat, e: nat, p: Piece, rest: seq<Piece>)
    requires i <= e <= |s| && PieceText(p) == s[i..e] && Original(rest) == s[e..]
    ensures Original([p] + rest) == s[i..]
  {
    OriginalCons(p, rest);
    assert s[i..] == s[i..e] + s[e..];
  }

  /** The pieces cover the text exactly, in order and without overlap: the text outside the
      matches is every Char piece, and writing the pieces out gives the text back. */
  lemma {:induction false} ScanCovers(s: string, i: nat)
    requires i <= |s|
    ensures Original(Scan(s, i)) == s[i..]
    decreases |s| - i
  {
    if i < |s| {
      match MatchAt(s, i)
      case Some(m) =>
        ScanCovers(s, m.end);
        CoversJoin(s, i, m.end, Image(m.alt, m.path), Scan(s, m.end));
      case None =>
        ScanCovers(s, i + 1);
        assert PieceText(Char(s[i])) == s[i..i + 1];
        CoversJoin(s, i, i + 1, Char(s[i]), Scan(s, i + 1));
    }
  }

  lemma {:induction false} FindAltEndFinds(s: string, i: nat, j: nat)
    requires i <= j && j + 1 < |s| && OpensLinkAt(s, j)
    requires forall m :: i <= m < j ==> s[m] != '\n'
    requires forall m :: i <= m < j ==> !OpensLinkAt(s, m)
    ensures FindAltEnd(s, i) == Some(j)
    decreases j - i
  {
    if i < j {
      FindAltEndFinds(s, i + 1, j);
    }
  }

  lemma {:induction false} FindCloseFinds(s: string, k: nat, m: nat)
    requires k <= m < |s| && s[m] == ')'
    requires forall j :: k <= j < m ==> s[j] != '\n' && s[j] != ')'
    ensures FindClose(s, k) == Some(m)
    decreases m - k
  {
    if k < m {
      FindCloseFinds(s, k + 1, m);
    }
  }

  /** Where each part of `![alt](path)` sits. */
  lemma MarkupLayout(alt: string, path: string)
    ensures var markup := Markup(alt, path);
            && |markup| == |alt| + |path| + 5
            && markup[0] == '!' && markup[1] == '['
            && markup[2..2 + |alt|] == alt
            && markup[2 + |alt|] == ']' && markup[3 + |alt|] == '('
            && markup[4 + |alt|..4 + |alt| + |path|] == path
            && markup[|markup| - 1] == ')'
  {
  }

  lemma SliceOfSlice(s: string, a: nat, b: nat, c: nat, d: nat)
    requires a <= b <= |s| && c <= d <= b - a
    ensures s[a..b][c..d] == s[a + c..a + d]
  {
    assert forall m :: 0 <= m < d - c ==> s[a..b][c..d][m] == s[a + c + m];
  }

  /** The alt group of a capturable occurrence ends at its own "](". */
  lemma AltEndsAt(s: string, i: nat, alt: string)
    requires '\n' !in alt && NoLinkOpener(alt)
    requires i + 2 + |alt| + 1 < |s| && s[i + 2..i + 2 + |alt|] == alt
    requires s[i + 2 + |alt|] == ']' && s[i + 3 + |alt|] == '('
    ensures FindAltEnd(s, i + 2) == Some(i + 2 + |alt|)
  {
    var j := i + 2 + |alt|;
    forall m | i + 2 <= m < j
      ensures s[m] != '\n' && !OpensLinkAt(s, m)
    {
      assert s[m] == alt[m - i - 2];
      if m + 1 < j {
        assert s[m + 1] == alt[m + 1 - i - 2];
        assert !OpensLinkAt(alt, m - i - 2);
      }
    }
    FindAltEndFinds(s, i + 2, j);
  }

  /** The path group of a capturable occurrence ends at its own ")". */
  lemma PathEndsAt(s: string, j: nat, path: string)
    requires '\n' !in path && ')' !in path
    requires j + |path| < |s| && s[j..j + |path|] == path && s[j + |path|] == ')'
    ensures FindClose(s, j) == Some(j + |path|)
  {
    forall m | j <= m < j + |path|
      ensures s[m] != '\n' && s[m] != ')'
    {
      assert s[m] == path[m - j];
    }
    FindCloseFinds(s, j, j + |path|);
  }

  lemma MatchAtFrom(s: string, i: nat, j: nat, k: nat)
    requires i + 1 < |s| && s[i] == '!' && s[i + 1] == '['
    requires FindAltEnd(s, i + 2) == Some(j) && FindClose(s, j + 2) == Some(k)
    ensures MatchAt(s, i) == Some(Match(s[i + 2..j], s[j + 2..k], k + 1))
  {
  }

  /** Where each part of `![alt](path)` sits when it occurs in s at i. */
  lemma MarkupAt(s: string, i: nat, alt: string, path: string)
    requires i + |Markup(alt, path)| <= |s| && s[i..i + |Markup(alt, path)|] == Markup(alt, path)
    ensures var j, k := i + 2 + |alt|, i + 4 + |alt| + |path|;
            && s[i] == '!' && s[i + 1] == '[' && s[i + 2..j] == alt
            && s[j] == ']' && s[j + 1] == '(' && s[j + 2..k] == path && s[k] == ')'
  {
    var markup := Markup(alt, path);
    var n := |markup|;
    MarkupLayout(alt, path);
    SliceOfSlice(s, i, i + n, 2, 2 + |alt|);
    SliceOfSlice(s, i, i + n, 4 + |alt|, 4 + |alt| + |path|);
    assert s[i] == markup[0] && s[i + 1] == markup[1];
    assert s[i + 2 + |alt|] == markup[2 + |alt|] && s[i + 3 + |alt|] == markup[3 + |alt|];
    assert s[i + n - 1] == markup[n - 1];
  }

  /** Whenever the text at i reads `![alt](path)` with groups the pattern can capture,
      the pattern matches there with exactly those groups. */
  lemma MatchAtFinds(s: string, i: nat, alt: string, path: string)
    requires AreGroups(alt, path)
    requires i + |Markup(alt, path)| <= |s| && s[i..i + |Markup(alt, path)|] == Markup(alt, path)
    ensures MatchAt(s, i) == Some(Match(alt, path, i + |Markup(alt, path)|))
  {
    var j := i + 2 + |alt|;
    var k := j + 2 + |path|;
    MarkupAt(s, i, alt, path);
    AltEndsAt(s, i, alt);
    PathEndsAt(s, j + 2, path);
    MatchAtFrom(s, i, j, k);
  }

  /** `re.sub` takes every such occurrence the walk reaches as one match. */
  lemma ScanTakesImage(s: string, i: nat, alt: string, path: string)
    requires AreGroups(alt, path)
    requires i + |Markup(alt, path)| <= |s| && s[i..i + |Markup(alt, path)|] == Markup(alt, path)
    ensures Scan(s, i) == [Image(alt, path)] + Scan(s, i + |Markup(alt, path)|)
  {
    MatchAtFinds(s, i, alt, path);
  }

  /** Pieces whose images are all remote are written out unchanged. */
  predicate AllRemote(pieces: seq<Piece>) {
    forall k :: 0 <= k < |pieces| && pieces[k].Image? ==> IsRemote(pieces[k].path)
  }

  lemma {:induction false} SubstitutedRemote(pieces: seq<Piece>, env: Env)
    requires AllRemote(pieces)
    ensures Substituted(pieces, env) == Original(pieces)
  {
    if pieces != [] {
      SubstitutedRemote(pieces[1..], env);
    }
  }

  /** Where "![" does not occur, the walk finds no image. */
  lemma {:induction false} ScanWithoutMarker(s: string, i: nat)
    requires i <= |s| && !Contains(s[i..], "![")
    ensures forall k :: 0 <= k < |Scan(s, i)| ==> Scan(s, i)[k].Char?
    decreases |s| - i
  {
    if i < |s| {
      assert s[i..][1..] == s[i + 1..];
      assert !StartsWith(s[i..], "![");
      ScanWithoutMarker(s, i + 1);
    }
  }

  /** The rewritten image reads back, under the same pattern, with the same alt text and the
      new target, whenever that target is one the path group can capture. */
  lemma ReplacementKeepsAlt(alt: string, path: string, env: Env)
    requires AreGroups(alt, ImageTarget(path, env))
    ensures var replaced := ReplaceWithBase64(alt, path, env);
            MatchAt(replaced, 0) == Some(Match(alt, ImageTarget(path, env), |replaced|))
  {
    var replaced := ReplaceWithBase64(alt, path, env);
    assert replaced[0..|replaced|] == replaced;
    MatchAtFinds(replaced, 0, alt, ImageTarget(path, env));
  }

  /** For a matched path the two placeholders are themselves capturable targets, so the
      missing-file and failed-load rewrites always keep the alt text readable. */
  lemma PlaceholdersAreGroups(alt: string, path: string, env: Env)
    requires AreGroups(alt, path) && !IsRemote(path)
    requires !env.fileExists(path) || env.load(path).LoadFailed?
    ensures AreGroups(alt, ImageTarget(path, env))
  {
    var placeholder := if !env.fileExists(path) then NotFoundLabel else ErrorLabel;
    assert ImageTarget(path, env) == placeholder + path;
    assert '\n' !in placeholder && ')' !in placeholder;
  }

  /** The Tk preview pane: `update_content` rewrites the images first, then converts. */
  class ViewerFrame {
    /** `markdown(text, extensions=['extra', 'codehilite'])`, an external library. */
    const markdown: string -> string
    /** The HTML last handed to the HtmlFrame with `load_html`. */
    var html: string

    constructor (markdown: string -> string)
      ensures this.markdown == markdown && html == ""
    {
      this.markdown := markdown;
      html := "";
    }

    method UpdateContent(text: string, env: Env)
      modifies this
      ensures html == markdown(ProcessImagePaths(text, env))
    {
      var processed := ProcessImagePaths(text, env);
      html := markdown(processed);
    }
  }
}
