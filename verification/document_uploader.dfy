/** The PDF upload panel (`DocumentUploader`): the file gate, the text
    extracted page by page, and the guard before questions are generated.
    PDF parsing is an input (the text items of each page, or a failure), and
    the request to the language model is left out. */
module DocumentUploader {
  import opened Js

  const PdfType := "application/pdf"

  /** 2 MiB. */
  const MaxFileSize: int := 2 * 1024 * 1024

  /** How many characters of the text go into the prompt. */
  const PromptChars: nat := 1000

  datatype FileInfo = FileInfo(name: string, mimeType: string, size: int)

  datatype FileCheck = NotPdf | TooLarge | Accepted

  function CheckMessage(c: FileCheck): string {
    match c
    case NotPdf => "Please upload a PDF file"
    case TooLarge => "File size exceeds 2MB limit"
    case Accepted => ""
  }

  /** The type is checked before the size; a file of exactly 2 MiB passes. */
  function CheckFile(f: FileInfo): (r: FileCheck)
    ensures r == NotPdf <==> f.mimeType != "application/pdf"
    ensures r == TooLarge <==> f.mimeType == "application/pdf" && f.size > 2097152
    ensures r == Accepted <==> f.mimeType == "application/pdf" && f.size <= 2097152
  {
    if f.mimeType != PdfType then NotPdf
    else if f.size > MaxFileSize then TooLarge
    else Accepted
  }

  /** One page's text: the items joined by spaces, whitespace runs collapsed
      to one space, then trimmed. It has no whitespace at either end, no two
      whitespace characters in a row, no line break, and the same
      non-whitespace characters as the items. */
  function PageText(items: seq<string>): (r: string)
    ensures Trimmed(r) && NoDoubleSpace(r)
    ensures forall i :: 0 <= i < |r| ==> r[i] != '\n'
    ensures NonSpace(r) == NonSpace(Join(items, " "))
  {
    var joined := Join(items, " ");
    var r := Trim(Collapse(joined));
    CollapseKeepsNonSpace(joined);
    TrimKeepsNonSpace(Collapse(joined));
    TrimKeepsSingleSpaces(Collapse(joined));
    assert forall k :: 0 <= k < |r| ==> r[k] != '\n' by {
      forall k | 0 <= k < |r| ensures r[k] != '\n' {
        if IsSpace(r[k]) {
          assert r[k] == ' ';
        }
      }
    }
    r
  }

  /** A page whose items are words reads as those words joined by single
      spaces: no word is split, merged with its neighbour or changed. */
  lemma PageTextOfWords(items: seq<string>)
    requires forall i :: 0 <= i < |items| ==> Word(items[i])
    ensures PageText(items) == Join(items, " ")
  {
    var joined := Join(items, " ");
    JoinWords(items);
    CollapseSingleSpaces(joined);
    TrimOfTrimmed(joined);
  }

  /** The whole text: each page's text followed by a line break, pages in
      order. */
  function FullText(pages: seq<seq<string>>): string
  {
    if pages == [] then ""
    else PageText(pages[0]) + "\n" + FullText(pages[1..])
  }

  /** One line per page: the full text holds exactly as many line breaks as
      the document has pages, and ends with one when there is a page. */
  lemma {:induction false} OneLinePerPage(pages: seq<seq<string>>)
    ensures CountChar(FullText(pages), '\n') == |pages|
    ensures pages != [] ==> FullText(pages)[|FullText(pages)| - 1] == '\n'
  {
    if pages != [] {
      var page := PageText(pages[0]);
      var rest := FullText(pages[1..]);
      var text := page + "\n" + rest;
      assert FullText(pages) == text;
      OneLinePerPage(pages[1..]);
      CountCharAbsent(page, '\n');
      CountCharAppend(page, "\n", '\n');
      CountCharAppend(page + "\n", rest, '\n');
      if rest != [] {
        assert text[|text| - 1] == rest[|rest| - 1];
      }
    }
  }

  /** The first line break at or after `i`, or `|s|`. */
  function LineEnd(s: string, i: nat): (r: nat)
    requires i <= |s|
    ensures i <= r <= |s|
    ensures forall k :: i <= k < r ==> s[k] != '\n'
    ensures r == |s| || s[r] == '\n'
    decreases |s| - i
  {
    if i == |s| || s[i] == '\n' then i else LineEnd(s, i + 1)
  }

  /** The lines of a text, each without its line break; a last piece with no
      line break after it is a line too. */
  function Lines(s: string): seq<string>
    decreases |s|
  {
    if s == [] then []
    else
      var e := LineEnd(s, 0);
      if e == |s| then [s] else [s[..e]] + Lines(s[e + 1..])
  }

  /** The first line break of `a + "\n" + b` is the one after `a`, when `a`
      has none. */
  lemma {:induction false} LineEndAfter(a: string, b: string, i: nat)
    requires i <= |a| && forall k :: 0 <= k < |a| ==> a[k] != '\n'
    ensures LineEnd(a + "\n" + b, i) == |a|
    decreases |a| - i
  {
    var s := a + "\n" + b;
    if i < |a| {
      assert s[i] == a[i];
      LineEndAfter(a, b, i + 1);
    } else {
      assert s[i] == '\n';
    }
  }

  /** A line with no line break in it, followed by one, is the first line. */
  lemma LinesCons(line: string, rest: string)
    requires forall k :: 0 <= k < |line| ==> line[k] != '\n'
    ensures Lines(line + "\n" + rest) == [line] + Lines(rest)
  {
    var s := line + "\n" + rest;
    LineEndAfter(line, rest, 0);
    assert s[..|line|] == line && s[|line| + 1..] == rest;
  }

  /** Splitting the whole text at its line breaks gives back the page texts,
      page by page. */
  lemma {:induction false} LinesOfFullText(pages: seq<seq<string>>)
    ensures |Lines(FullText(pages))| == |pages|
    ensures forall k :: 0 <= k < |pages| ==> Lines(FullText(pages))[k] == PageText(pages[k])
  {
    if pages != [] {
      var page := PageText(pages[0]);
      var rest := FullText(pages[1..]);
      LinesCons(page, rest);
      LinesOfFullText(pages[1..]);
      var lines := Lines(FullText(pages));
      assert lines == [page] + Lines(rest);
      forall k | 0 <= k < |pages| ensures lines[k] == PageText(pages[k]) {
        if k > 0 {
          assert lines[k] == Lines(rest)[k - 1];
          assert pages[1..][k - 1] == pages[k];
        }
      }
    }
  }

  /** What the parser produced: the text items of each page, or an error. */
  datatype Parsed = Pages(items: seq<seq<string>>) | ParseFailed

  datatype Panel = Panel(file: Option<FileInfo>, extractedText: string)

  datatype Selection = Selection(panel: Panel, error: Option<string>)

  /** `extractTextFromPDF`: the full text, line k holding the text of page
      k, or the empty string when parsing fails. */
  function Extract(parsed: Parsed): (text: string)
    ensures parsed.ParseFailed? ==> text == ""
    ensures parsed.Pages? ==> CountChar(text, '\n') == |parsed.items|
    ensures parsed.Pages? ==>
              |Lines(text)| == |parsed.items|
              && forall k :: 0 <= k < |parsed.items| ==> Lines(text)[k] == PageText(parsed.items[k])
  {
    match parsed
    case ParseFailed => ""
    case Pages(items) => OneLinePerPage(items); LinesOfFullText(items); FullText(items)
  }

  /** `handleFileChange`: a rejected file leaves the panel as it was (the
      previous file and its text stay); an accepted one replaces the file and
      the text. */
  function ChooseFile(p: Panel, f: FileInfo, parsed: Parsed): (s: Selection)
    ensures CheckFile(f) != Accepted ==>
              s.panel == p && s.error == Some(CheckMessage(CheckFile(f)))
    ensures CheckFile(f) == Accepted ==>
              s.panel.file == Some(f) && s.panel.extractedText == Extract(parsed)
  {
    var c := CheckFile(f);
    if c != Accepted then Selection(p, Some(CheckMessage(c)))
    else if parsed.ParseFailed? then
      Selection(Panel(Some(f), Extract(parsed)), Some("Failed to extract text from PDF"))
    else Selection(Panel(Some(f), Extract(parsed)), None)
  }

  /** `handleGenerateMCQs` up to the request: refused when no text was
      extracted, otherwise the prompt carries at most the first thousand
      characters of the text. */
  function PromptText(text: string): (r: Option<string>)
    ensures r.None? <==> text == ""
    ensures r.Some? ==> |r.value| == if |text| < 1000 then |text| else 1000
    ensures r.Some? ==> r.value == text[..|r.value|]
  {
    if text == [] then None
    else if |text| <= PromptChars then Some(text)
    else Some(text[..PromptChars])
  }

  /** Choosing the same file again with the same parse changes nothing
      more. */
  lemma ChooseFileTwice(p: Panel, f: FileInfo, parsed: Parsed)
    ensures ChooseFile(ChooseFile(p, f, parsed).panel, f, parsed) == ChooseFile(p, f, parsed)
  {
  }

  /** A failed parse can never lead to a request. */
  lemma FailedParseGeneratesNothing(p: Panel, f: FileInfo)
    requires CheckFile(f) == Accepted
    ensures PromptText(ChooseFile(p, f, ParseFailed).panel.extractedText).None?
  {
  }
}
