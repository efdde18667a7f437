/** The Qt preview pane (viewer_widget.py): the page assembled around the converted Markdown,
    the navigation hook of its web page, and the handling of clicked links. */
module QtViewer {
  import opened Wrappers
  import opened Strings

  // ---------------------------------------------------------------------------
  // Image sources under /home/ are turned into file URLs.

  const HomeSrc: string := "src=\"/home/"
  const FileHomeSrc: string := "src=\"file:///home/"

  /** `html_content.replace('src="/home/', 'src="file:///home/')` */
  function RewriteSrc(html: string): (r: string)
    ensures !Contains(html, HomeSrc) ==> r == html
  {
    assert !Contains(html, HomeSrc) ==> ReplaceAll(html, HomeSrc, FileHomeSrc) == html by {
      if !Contains(html, HomeSrc) {
        ReplaceAllAbsent(html, HomeSrc, FileHomeSrc);
      }
    }
    ReplaceAll(html, HomeSrc, FileHomeSrc)
  }

  /** No `src="/home/` is left after the rewrite, not even one formed across a seam
      between a replacement and the text next to it. */
  lemma {:induction false} RewriteSrcLeavesNone(html: string)
    ensures !Contains(RewriteSrc(html), HomeSrc)
    decreases |html|
  {
    if StartsWith(html, HomeSrc) {
      RewriteSrcLeavesNone(html[|HomeSrc|..]);
      LeavesNoneAfterReplacement(html);
    } else if html != [] {
      RewriteSrcLeavesNone(html[1..]);
      LeavesNoneAfterChar(html);
    }
  }

  lemma LeavesNoneAfterReplacement(html: string)
    requires StartsWith(html, HomeSrc)
    requires !Contains(RewriteSrc(html[|HomeSrc|..]), HomeSrc)
    ensures !Contains(RewriteSrc(html), HomeSrc)
  {
    var rest := html[|HomeSrc|..];
    assert RewriteSrc(html) == FileHomeSrc + RewriteSrc(rest);
    assert !StartsWith(RewriteSrc(html), HomeSrc) by {
      assert RewriteSrc(html)[5] == FileHomeSrc[5];
    }
    assert RewriteSrc(html)[1..] == FileHomeSrc[1..] + RewriteSrc(rest);
    ContainsAppend(FileHomeSrc[1..], RewriteSrc(rest), HomeSrc);
  }

  lemma LeavesNoneAfterChar(html: string)
    requires html != [] && !StartsWith(html, HomeSrc)
    requires !Contains(RewriteSrc(html[1..]), HomeSrc)
    ensures !Contains(RewriteSrc(html), HomeSrc)
  {
    var rest := html[1..];
    assert RewriteSrc(html) == [html[0]] + RewriteSrc(rest);
    assert RewriteSrc(html)[1..] == RewriteSrc(rest);
    if StartsWith(RewriteSrc(rest), HomeSrc[1..]) {
      ReplaceAllKeepsPrefix(rest, HomeSrc, FileHomeSrc, HomeSrc[1..]);
    }
    if |html| >= |HomeSrc| {
      assert html[..|HomeSrc|] == [html[0]] + rest[..|HomeSrc| - 1];
    }
  }

  /** Rewriting twice is rewriting once. */
  lemma RewriteSrcIdempotent(html: string)
    ensures RewriteSrc(RewriteSrc(html)) == RewriteSrc(html)
  {
    RewriteSrcLeavesNone(html);
    ReplaceAllAbsent(RewriteSrc(html), HomeSrc, FileHomeSrc);
  }

  /** Nothing but the rewritten prefixes changes: turning every `src="file:///home/` back
      into `src="/home/` gives the same text whether or not the rewrite ran first. */
  lemma {:induction false} RewriteSrcUndone(html: string)
    ensures ReplaceAll(RewriteSrc(html), FileHomeSrc, HomeSrc) == ReplaceAll(html, FileHomeSrc, HomeSrc)
    decreases |html|
  {
    if StartsWith(html, HomeSrc) {
      RewriteSrcUndone(html[|HomeSrc|..]);
      UndoneAfterHomeSrc(html);
    } else if StartsWith(html, FileHomeSrc) {
      RewriteSrcUndone(html[|FileHomeSrc|..]);
      UndoneAfterFileHomeSrc(html);
    } else if html != [] {
      RewriteSrcUndone(html[1..]);
      UndoneAfterChar(html);
    }
  }

  /** In HTML that held no `src="file:///home/` of its own, undoing the rewrite restores it. */
  lemma RewriteSrcReversible(html: string)
    requires !Contains(html, FileHomeSrc)
    ensures ReplaceAll(RewriteSrc(html), FileHomeSrc, HomeSrc) == html
  {
    RewriteSrcUndone(html);
    ReplaceAllAbsent(html, FileHomeSrc, HomeSrc);
  }

  /** The rewrite copies a `src="file:///home/` as it is. */
  lemma RewriteSrcKeepsFileHomeSrc(x: string)
    ensures RewriteSrc(FileHomeSrc + x) == FileHomeSrc + RewriteSrc(x)
  {
    NotStartsWithAt(FileHomeSrc, x, HomeSrc, 5);
    ReplaceAllSkipsWord(FileHomeSrc, x, HomeSrc, FileHomeSrc);
  }

  /** The undo copies a `src="/home/` as it is. */
  lemma UndoKeepsHomeSrc(x: string)
    ensures ReplaceAll(HomeSrc + x, FileHomeSrc, HomeSrc) == HomeSrc + ReplaceAll(x, FileHomeSrc, HomeSrc)
  {
    NotStartsWithAt(HomeSrc, x, FileHomeSrc, 5);
    ReplaceAllSkipsWord(HomeSrc, x, FileHomeSrc, HomeSrc);
  }

  /** The undo turns a leading `src="file:///home/` into `src="/home/`. */
  lemma UndoReplacesFileHomeSrc(x: string)
    ensures ReplaceAll(FileHomeSrc + x, FileHomeSrc, HomeSrc) == HomeSrc + ReplaceAll(x, FileHomeSrc, HomeSrc)
  {
    var t := FileHomeSrc + x;
    assert t[..|FileHomeSrc|] == FileHomeSrc;
    assert t[|FileHomeSrc|..] == x;
  }

  lemma UndoneAfterHomeSrc(html: string)
    requires StartsWith(html, HomeSrc)
    requires var rest := html[|HomeSrc|..];
             ReplaceAll(RewriteSrc(rest), FileHomeSrc, HomeSrc) == ReplaceAll(rest, FileHomeSrc, HomeSrc)
    ensures ReplaceAll(RewriteSrc(html), FileHomeSrc, HomeSrc) == ReplaceAll(html, FileHomeSrc, HomeSrc)
  {
    var rest := html[|HomeSrc|..];
    assert html == HomeSrc + rest;
    assert RewriteSrc(html) == FileHomeSrc + RewriteSrc(rest);
    UndoReplacesFileHomeSrc(RewriteSrc(rest));
    UndoKeepsHomeSrc(rest);
  }

  lemma UndoneAfterFileHomeSrc(html: string)
    requires StartsWith(html, FileHomeSrc)
    requires var rest := html[|FileHomeSrc|..];
             ReplaceAll(RewriteSrc(rest), FileHomeSrc, HomeSrc) == ReplaceAll(rest, FileHomeSrc, HomeSrc)
    ensures ReplaceAll(RewriteSrc(html), FileHomeSrc, HomeSrc) == ReplaceAll(html, FileHomeSrc, HomeSrc)
  {
    var rest := html[|FileHomeSrc|..];
    assert html == FileHomeSrc + rest;
    RewriteSrcKeepsFileHomeSrc(rest);
    UndoReplacesFileHomeSrc(RewriteSrc(rest));
    UndoReplacesFileHomeSrc(rest);
  }

  lemma UndoneAfterChar(html: string)
    requires html != [] && !StartsWith(html, HomeSrc) && !StartsWith(html, FileHomeSrc)
    requires ReplaceAll(RewriteSrc(html[1..]), FileHomeSrc, HomeSrc) == ReplaceAll(html[1..], FileHomeSrc, HomeSrc)
    ensures ReplaceAll(RewriteSrc(html), FileHomeSrc, HomeSrc) == ReplaceAll(html, FileHomeSrc, HomeSrc)
  {
    var out := [html[0]] + RewriteSrc(html[1..]);
    assert RewriteSrc(html) == out;
    if StartsWith(out, FileHomeSrc) {
      FileHomeSrcFrom(html);
    }
    assert out[1..] == RewriteSrc(html[1..]);
  }

  /** A `src="file:///home/` at the head of the rewrite of html, where html does not open with
      `src="/home/`, was there in html already. */
  lemma FileHomeSrcFrom(html: string)
    requires html != []
    requires StartsWith([html[0]] + RewriteSrc(html[1..]), FileHomeSrc)
    ensures StartsWith(html, FileHomeSrc)
  {
    var rest := html[1..];
    var out := [html[0]] + RewriteSrc(rest);
    assert out[1..][..|FileHomeSrc| - 1] == FileHomeSrc[1..];
    ReplaceAllKeepsPrefix(rest, HomeSrc, FileHomeSrc, FileHomeSrc[1..]);
    assert html[..|FileHomeSrc|] == [html[0]] + rest[..|FileHomeSrc| - 1];
  }

  // ---------------------------------------------------------------------------
  // The page: a fixed head (KaTeX auto-render with its four delimiter pairs, and the
  // body style) around the converted fragment.

  const KatexScript: string :=
    "\n        <link rel=\"stylesheet\" href=\"https://cdn.jsdelivr.net/npm/katex/dist/katex.min.css\">"
    + "\n        <script defer src=\"https://cdn.jsdelivr.net/npm/katex/dist/katex.min.js\"></script>"
    + "\n        <script defer src=\"https://cdn.jsdelivr.net/npm/katex/dist/contrib/auto-render.min.js\"></script>"
    + "\n        <script>"
    + "\n            document.addEventListener(\"DOMContentLoaded\", function() {"
    + "\n                renderMathInElement(document.body, {"
    + "\n                    delimiters: ["
    + "\n                        {left: \"$$\", right: \"$$\", display: true},"
    + "\n                        {left: \"\\[\", right: \"\\]\", display: true},"
    + "\n                        {left: \"$\", right: \"$\", display: false},"
    + "\n                        {left: \"\\(\", right: \"\\)\", display: false}"
    + "\n                    ]"
    + "\n                });"
    + "\n            });"
    + "\n        </script>"
    + "\n        "

  const Style: string :=
    "\n        <style>"
    + "\n            body {"
    + "\n                font-family: 'Raleway', sans-serif;"
    + "\n                font-size: 18px;"
    + "\n                font-weight: 600;"
    + "\n                color: #222;"
    + "\n                background-color: #FFFFEE;"
    + "\n            }"
    + "\n        </style>"
    + "\n        "

  const PageHead: string :=
    "\n        <!DOCTYPE html>\n        <html>\n        <head>\n        "
    + KatexScript + "\n        " + Style + "\n        </head>\n        <body>"

  const PageTail: string := "</body>\n        </html>\n        "

  /** `final_html`: the fragment as the whole content of the body element. */
  function Page(fragment: string): (page: string)
    ensures BodyOf(page) == Some(fragment)
  {
    var page := PageHead + fragment + PageTail;
    assert page[..|PageHead|] == PageHead;
    assert page[|page| - |PageTail|..] == PageTail;
    assert page[|PageHead|..|page| - |PageTail|] == fragment;
    page
  }

  /** Reads the fragment back out of a page. */
  function BodyOf(html: string): Option<string> {
    if |PageHead| + |PageTail| <= |html| && StartsWith(html, PageHead) && EndsWith(html, PageTail)
    then Some(html[|PageHead|..|html| - |PageTail|])
    else None
  }

  /** The whole of `update_content` after the conversion: `toHtml` stands for
      `markdown(text, extensions=['extra', 'codehilite', MathExtension()])`. What the page
      shows is, inside the body, the converted Markdown with only the `src` prefixes
      rewritten, and it holds no `src="/home/`. */
  function RenderPage(text: string, toHtml: string -> string): (page: string)
    ensures BodyOf(page) == Some(RewriteSrc(toHtml(text)))
    ensures !Contains(BodyOf(page).value, HomeSrc)
  {
    RewriteSrcLeavesNone(toHtml(text));
    Page(RewriteSrc(toHtml(text)))
  }

  // ---------------------------------------------------------------------------
  // ViewerPage.acceptNavigationRequest

  datatype NavigationType =
    | LinkClicked | Typed | FormSubmitted | BackForward | Reload | Redirect | Other

  /** Whether the page lets the navigation go ahead, and the URL handed to `on_link_clicked`
      when it is called. */
  datatype NavigationDecision = NavigationDecision(accept: bool, clicked: Option<string>)

  /** A link click is kept from the web view and handed to the callback, if one is set;
      every other navigation goes ahead without it. `isMainFrame` plays no part. */
  function AcceptNavigationRequest(url: string, navType: NavigationType, isMainFrame: bool,
                                   hasCallback: bool): (d: NavigationDecision)
    ensures d.accept <==> navType != LinkClicked
    ensures d.clicked.Some? <==> navType == LinkClicked && hasCallback
    ensures d.clicked.Some? ==> d.clicked.value == url
  {
    if navType == LinkClicked then
      NavigationDecision(false, if hasCallback then Some(url) else None)
    else
      NavigationDecision(true, None)
  }

  // ---------------------------------------------------------------------------
  // ViewerWidget.open_link

  const FileScheme: string := "file://"
  const MarkdownSuffix: string := ".md"

  predicate IsWebUrl(url: string) {
    StartsWith(url, "http://") || StartsWith(url, "https://")
  }

  /** Which of the four branches of `open_link` a URL takes. */
  datatype LinkAction =
    | OpenExternally(url: string)   // QDesktopServices.openUrl
    | RenderFile(path: string)      // read the .md file and show it
    | RejectFile(path: string)      // "Unsupported file type"
    | LoadInView(url: string)       // webview.load

  /** The branches, tried in order. The local path is the URL without its
      seven-character `file://` prefix. */
  function ClassifyLink(url: string): (a: LinkAction)
    ensures a.OpenExternally? <==> IsWebUrl(url)
    ensures a.RenderFile? <==> !IsWebUrl(url) && StartsWith(url, FileScheme) && EndsWith(url[7..], MarkdownSuffix)
    ensures a.RejectFile? <==> !IsWebUrl(url) && StartsWith(url, FileScheme) && !EndsWith(url[7..], MarkdownSuffix)
    ensures a.LoadInView? <==> !IsWebUrl(url) && !StartsWith(url, FileScheme)
    ensures a.OpenExternally? || a.LoadInView? ==> a.url == url
    ensures a.RenderFile? || a.RejectFile? ==> url == FileScheme + a.path
  {
    if IsWebUrl(url) then OpenExternally(url)
    else if StartsWith(url, FileScheme) then
      var localPath := url[7..];
      assert url == FileScheme + localPath;
      if EndsWith(localPath, MarkdownSuffix) then RenderFile(localPath) else RejectFile(localPath)
    else LoadInView(url)
  }

  /** A file URL built from a path is sorted by the path's suffix and gives the path back. */
  lemma ClassifyFileUrl(path: string)
    ensures ClassifyLink(FileScheme + path) ==
            if EndsWith(path, MarkdownSuffix) then RenderFile(path) else RejectFile(path)
  {
    var url := FileScheme + path;
    assert StartsWith(url, FileScheme);
    assert url[7..] == path;
    assert !StartsWith(url, "http://") by { assert url[0] != 'h'; }
    assert !StartsWith(url, "https://") by { assert url[0] != 'h'; }
  }

  // ---------------------------------------------------------------------------
  // The widget

  /** What reading a file as UTF-8 text yields. */
  datatype ReadResult = Read(text: string) | ReadFailed

  /** The calls the widget makes on its host, in order. */
  datatype HostCall =
    | SetHtml(html: string)       // webview.setHtml(final_html, base URL)
    | OpenUrl(url: string)        // QDesktopServices.openUrl
    | LoadUrl(url: string)        // webview.load

  class ViewerWidget {
    /** `markdown(text, extensions=['extra', 'codehilite', MathExtension()])`, an external library. */
    const toHtml: string -> string
    var currentMarkdown: string
    var originalMarkdown: string
    var calls: seq<HostCall>

    /** The two fields are always assigned together, so they always agree. */
    predicate Valid()
      reads this
    {
      currentMarkdown == originalMarkdown
    }

    constructor (toHtml: string -> string)
      ensures Valid() && this.toHtml == toHtml
      ensures currentMarkdown == "" && originalMarkdown == "" && calls == []
    {
      this.toHtml := toHtml;
      currentMarkdown := "";
      originalMarkdown := "";
      calls := [];
    }

    /** Both fields take the text, and the page rendered from it is shown. */
    method UpdateContent(markdownText: string)
      modifies this
      ensures Valid()
      ensures currentMarkdown == markdownText && originalMarkdown == markdownText
      ensures calls == old(calls) + [SetHtml(RenderPage(markdownText, toHtml))]
    {
      currentMarkdown := markdownText;
      originalMarkdown := markdownText;
      var htmlContent := toHtml(markdownText);
      htmlContent := RewriteSrc(htmlContent);
      var finalHtml := Page(htmlContent);
      calls := calls + [SetHtml(finalHtml)];
    }

    /** What `open_link(url)` does to the widget, branch by branch of ClassifyLink. */
    twostate predicate LinkOpened(url: string, readFile: string -> ReadResult)
      reads this
    {
      match ClassifyLink(url)
      case OpenExternally(u) =>
        calls == old(calls) + [OpenUrl(u)]
        && currentMarkdown == old(currentMarkdown) && originalMarkdown == old(originalMarkdown)
      case RenderFile(path) =>
        (match readFile(path)
         case Read(text) =>
           currentMarkdown == text && originalMarkdown == text
           && calls == old(calls) + [SetHtml(RenderPage(text, toHtml))]
         case ReadFailed =>
           currentMarkdown == old(currentMarkdown) && originalMarkdown == old(originalMarkdown)
           && calls == old(calls))
      case RejectFile(_) =>
        currentMarkdown == old(currentMarkdown) && originalMarkdown == old(originalMarkdown)
        && calls == old(calls)
      case LoadInView(u) =>
        calls == old(calls) + [LoadUrl(u)]
        && currentMarkdown == old(currentMarkdown) && originalMarkdown == old(originalMarkdown)
    }

    /** Each clicked URL takes exactly one branch of ClassifyLink: a web URL goes to the
        desktop, a readable .md file is shown and becomes the text of both fields, an
        unreadable one or any other file changes nothing, and anything else is loaded
        in the view. Only the .md branch touches the fields. */
    method OpenLink(url: string, readFile: string -> ReadResult)
      requires Valid()
      modifies this
      ensures Valid()
      ensures LinkOpened(url, readFile)
    {
      if StartsWith(url, "http://") || StartsWith(url, "https://") {
        calls := calls + [OpenUrl(url)];
      } else if StartsWith(url, FileScheme) {
        var localPath := url[7..];
        if EndsWith(localPath, MarkdownSuffix) {
          match readFile(localPath)
          case Read(markdownContent) =>
            currentMarkdown := markdownContent;
            UpdateContent(markdownContent);
          case ReadFailed =>
        }
      } else {
        calls := calls + [LoadUrl(url)];
      }
    }

    /** Shows the last rendered text again; with nothing rendered yet, does nothing. */
    method GoBack()
      requires Valid()
      modifies this
      ensures Valid()
      ensures currentMarkdown == old(currentMarkdown) && originalMarkdown == old(originalMarkdown)
      ensures calls == if old(originalMarkdown) == "" then old(calls)
                       else old(calls) + [SetHtml(RenderPage(old(currentMarkdown), toHtml))]
    {
      if originalMarkdown != "" {
        UpdateContent(originalMarkdown);
      }
    }

    /** The page the widget installs (`ViewerPage(on_link_clicked=self.open_link)`): its
        decision, with a link click passed on to OpenLink. */
    method AcceptNavigation(url: string, navType: NavigationType, isMainFrame: bool,
                            readFile: string -> ReadResult) returns (accept: bool)
      requires Valid()
      modifies this
      ensures Valid()
      ensures accept <==> navType != LinkClicked
      ensures navType == LinkClicked ==> LinkOpened(url, readFile)
      ensures navType != LinkClicked ==> unchanged(this)
    {
      var decision := AcceptNavigationRequest(url, navType, isMainFrame, true);
      if decision.clicked.Some? {
        OpenLink(decision.clicked.value, readFile);
      }
      accept := decision.accept;
    }
  }
}
