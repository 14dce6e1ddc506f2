/**
  The response side of the static-file server (06/homework/httpd.py):
  reason phrases, the content-type table `guess_content_type` and the
  header serialiser `build_headers`.
*/
module HttpResponse {
  import opened Base
  import opened Seqs
  import opened Text
  import opened HttpRequest

  /** SERVER_NAME */
  const ServerName: string := "simple-httpd"

  /** STATUS_MESSAGES, with `""` for any other code. */
  function StatusMessage(code: int): (m: string)
    ensures m != "" <==> code == 200 || code == 400 || code == 403 || code == 404 || code == 405
  {
    if code == 200 then "OK"
    else if code == 400 then "Bad Request"
    else if code == 403 then "Forbidden"
    else if code == 404 then "Not Found"
    else if code == 405 then "Method Not Allowed"
    else ""
  }

  /** CONTENT_TYPES, looked up by an already lower-cased suffix. */
  function ContentTypes(suffix: string): (r: Option<string>)
    ensures r.Some? ==> r.value != ""
  {
    if suffix == ".html" then Some("text/html")
    else if suffix == ".css" then Some("text/css")
    else if suffix == ".js" then Some("application/javascript")
    else if suffix == ".jpg" || suffix == ".jpeg" then Some("image/jpeg")
    else if suffix == ".png" then Some("image/png")
    else if suffix == ".gif" then Some("image/gif")
    else if suffix == ".swf" then Some("application/x-shockwave-flash")
    else None
  }

  /**
    `PurePath.suffix` of a file name: from the last `.` on, unless that dot
    is the first or the last character, in which case there is no suffix.
  */
  function Suffix(name: string): (r: string)
    ensures r == "" || (|r| >= 2 && r[0] == '.' && |r| < |name| && r == name[|name| - |r|..])
    ensures forall j :: 0 < j < |r| ==> r[j] != '.'
  {
    match LastIndexOfElem(name, '.')
    case None => ""
    case Some(i) => if 0 < i < |name| - 1 then name[i..] else ""
  }

  /**
    `guess_content_type` for a file name: the table entry for its lower-cased
    suffix, otherwise the platform's guess `guessed` (the `mimetypes`
    lookup), otherwise `application/octet-stream`. The result is never empty.
  */
  function GuessContentType(name: string, guessed: Option<string>): (r: string)
    ensures r != ""
  {
    match ContentTypes(Lower(Suffix(name)))
    case Some(t) => t
    case None => if guessed.Some? && guessed.value != "" then guessed.value else "application/octet-stream"
  }

  lemma LowerIdempotent(s: string)
    ensures Lower(Lower(s)) == Lower(s)
  {
  }

  /** Lower-casing keeps every dot where it was, so the suffix is found at the same place. */
  lemma SuffixOfLower(name: string)
    ensures Suffix(Lower(name)) == Lower(Suffix(name))
  {
    var l := Lower(name);
    var a := LastIndexOfElem(name, '.');
    var b := LastIndexOfElem(l, '.');
    assert forall j :: 0 <= j < |name| ==> (l[j] == '.' <==> name[j] == '.');
    assert a == b by {
      if a.Some? && b.Some? {
        assert !(a.value < b.value) && !(b.value < a.value);
      }
    }
    if a.Some? && 0 < a.value < |name| - 1 {
      assert l[a.value..] == Lower(name[a.value..]);
    }
  }

  /** The table is consulted case-insensitively: `photo.JPG` and `photo.jpg` get the same type. */
  lemma GuessIgnoresCase(name: string, guessed: Option<string>)
    ensures GuessContentType(Lower(name), guessed) == GuessContentType(name, guessed)
  {
    SuffixOfLower(name);
    LowerIdempotent(Suffix(name));
  }

  /** A known suffix decides the type, whatever the platform would guess. */
  lemma TableComesFirst(name: string, g1: Option<string>, g2: Option<string>)
    requires ContentTypes(Lower(Suffix(name))).Some?
    ensures GuessContentType(name, g1) == GuessContentType(name, g2) == ContentTypes(Lower(Suffix(name))).value
  {
  }

  /** Any name ending in `.JPG` is served as `image/jpeg`. */
  lemma UpperCaseJpeg(stem: string, guessed: Option<string>)
    requires stem != ""
    ensures GuessContentType(stem + ".JPG", guessed) == "image/jpeg"
  {
    var name := stem + ".JPG";
    var i := |stem|;
    assert name[i] == '.' && name[i + 1] == 'J' && name[i + 2] == 'P' && name[i + 3] == 'G';
    var r := LastIndexOfElem(name, '.');
    assert r == Some(i);
    assert name[i..] == ".JPG";
    assert Lower(".JPG") == ".jpg";
  }

  /** A response line without a line break in it. */
  predicate NoLineBreak(s: string)
  {
    forall i :: 0 <= i < |s| ==> s[i] != '\r' && s[i] != '\n'
  }

  /** `HTTP/1.1 <code> <reason>` */
  function StatusLine(code: int): string
  {
    "HTTP/1.1 " + IntToString(code) + " " + StatusMessage(code)
  }

  /**
    The header lines in the order `build_headers` writes them, `date` being
    the `formatdate` value. `Content-Type` is written only when a non-empty
    type is given.
  */
  function HeaderLines(code: int, contentLength: int, contentType: Option<string>, date: string): (lines: seq<string>)
    ensures |lines| == (if contentType.Some? && contentType.value != "" then 6 else 5)
    ensures lines[0] == StatusLine(code)
    ensures |lines| == 6 ==> lines[5] == "Content-Type: " + contentType.value
  {
    var base := [
      StatusLine(code),
      "Date: " + date,
      "Server: " + ServerName,
      "Connection: close",
      "Content-Length: " + IntToString(contentLength)
    ];
    if contentType.Some? && contentType.value != "" then base + ["Content-Type: " + contentType.value] else base
  }

  /** The lines joined by `\r\n`, then the blank line. */
  function HeaderText(code: int, contentLength: int, contentType: Option<string>, date: string): string
  {
    Join(HeaderLines(code, contentLength, contentType, date), "\r\n") + "\r\n\r\n"
  }

  /**
    `build_headers`: the header text encoded as ISO-8859-1; None stands for
    the `UnicodeEncodeError` a character above 255 would raise.
  */
  function BuildHeaders(code: int, contentLength: int, contentType: Option<string>, date: string): (r: Option<seq<byte>>)
    ensures r.Some? <==> IsLatin1(HeaderText(code, contentLength, contentType, date))
    ensures r.Some? ==> Latin1Decode(r.value) == HeaderText(code, contentLength, contentType, date)
  {
    var text := HeaderText(code, contentLength, contentType, date);
    if IsLatin1(text) then
      var b := Latin1Encode(text);
      assert Latin1Decode(b) == text;
      Some(b)
    else None
  }

  /**
    In text joined from non-empty lines without line breaks, every `\r` is
    followed by `\n` and then by something other than `\r`.
  */
  lemma {:induction false} JoinedLines(lines: seq<string>)
    requires |lines| > 0
    requires GoodLines(lines)
    ensures var s := Join(lines, "\r\n");
      && s != [] && s[0] != '\r'
      && forall i :: 0 <= i < |s| && s[i] == '\r' ==> i + 2 < |s| && s[i + 1] == '\n' && s[i + 2] != '\r'
  {
    var s := Join(lines, "\r\n");
    var l := lines[0];
    if |lines| > 1 {
      var t := Join(lines[1..], "\r\n");
      JoinedLines(lines[1..]);
      assert s == l + "\r\n" + t;
      forall i | 0 <= i < |s| && s[i] == '\r'
        ensures i + 2 < |s| && s[i + 1] == '\n' && s[i + 2] != '\r'
      {
        if i == |l| {
          assert s[i + 2] == t[0];
        } else if i > |l| + 1 {
          assert s[i] == t[i - |l| - 2];
        }
      }
    }
  }

  /** When no `\r` in `s` is followed two places later by another `\r`, the first blank line is the one appended. */
  lemma TerminatorAtEnd(s: string)
    requires forall i :: 0 <= i < |s| && s[i] == '\r' ==> i + 2 < |s| && s[i + 2] != '\r'
    ensures IndexOf(s + "\r\n\r\n", "\r\n\r\n") == Some(|s|)
  {
    var text := s + "\r\n\r\n";
    assert OccursAt(text, "\r\n\r\n", |s|) by { assert text[|s|..|s| + 4] == "\r\n\r\n"; }
    forall j: nat | j < |s| ensures !OccursAt(text, "\r\n\r\n", j) {
      NoTerminatorAt(s, text, j);
    }
  }

  /** One position before the appended blank line does not start a `\r\n\r\n`. */
  lemma NoTerminatorAt(s: string, text: string, j: nat)
    requires text == s + "\r\n\r\n" && j < |s|
    requires s[j] == '\r' ==> j + 2 < |s| && s[j + 2] != '\r'
    ensures !OccursAt(text, "\r\n\r\n", j)
  {
    assert j + 4 <= |text|;
    var w := text[j..j + 4];
    assert w[0] == s[j];
    if s[j] == '\r' {
      assert w[2] == s[j + 2];
    }
  }

  /** After text joined from such lines and a blank line, the first `\r\n\r\n` is the final one. */
  lemma BlockEnd(lines: seq<string>)
    requires |lines| > 0
    requires GoodLines(lines)
    ensures var text := Join(lines, "\r\n") + "\r\n\r\n";
      IndexOf(text, "\r\n\r\n") == Some(|text| - 4)
  {
    JoinedLines(lines);
    TerminatorAtEnd(Join(lines, "\r\n"));
  }

  /** ... and the first `\r\n` ends the first line. */
  lemma FirstLine(lines: seq<string>)
    requires |lines| > 0
    requires NoLineBreak(lines[0])
    ensures BeforeFirst(Join(lines, "\r\n") + "\r\n\r\n", "\r\n") == lines[0]
  {
    var rest := if |lines| == 1 then "\r\n" else Join(lines[1..], "\r\n") + "\r\n\r\n";
    assert Join(lines, "\r\n") + "\r\n\r\n" == lines[0] + "\r\n" + rest;
    BeforeFirstFree(lines[0], "\r\n", rest);
  }

  /** Both facts, for any text that is such lines and a blank line. */
  lemma BlockFacts(lines: seq<string>, text: string)
    requires |lines| > 0
    requires GoodLines(lines)
    requires text == Join(lines, "\r\n") + "\r\n\r\n"
    ensures IndexOf(text, "\r\n\r\n") == Some(|text| - 4)
    ensures BeforeFirst(text, "\r\n") == lines[0]
  {
    BlockEnd(lines);
    FirstLine(lines);
  }

  /**
    A reader of the serialised headers finds the status line up to the first
    `\r\n`, and the header block ends at the first `\r\n\r\n`, which is the
    end of the text (given a date and a content type without line breaks).
  */
  lemma HeaderBlockEnds(code: int, contentLength: int, contentType: Option<string>, date: string)
    requires NoLineBreak(date)
    requires contentType.Some? ==> NoLineBreak(contentType.value)
    ensures var text := HeaderText(code, contentLength, contentType, date);
      && IndexOf(text, "\r\n\r\n") == Some(|text| - 4)
      && BeforeFirst(text, "\r\n") == StatusLine(code)
  {
    var lines := HeaderLines(code, contentLength, contentType, date);
    LinesHaveNoBreak(code, contentLength, contentType, date);
    BlockFacts(lines, HeaderText(code, contentLength, contentType, date));
  }

  lemma NoLineBreakConcat(a: string, b: string)
    requires NoLineBreak(a) && NoLineBreak(b)
    ensures NoLineBreak(a + b)
  {
  }

  lemma IntHasNoBreak(i: int)
    ensures NoLineBreak(IntToString(i))
  {
    var n := NatToString(if i < 0 then -i else i);
    assert NoLineBreak(n) by { assert IsDigits(n); }
    if i < 0 { NoLineBreakConcat("-", n); }
  }

  lemma LinesHaveNoBreak(code: int, contentLength: int, contentType: Option<string>, date: string)
    requires NoLineBreak(date)
    requires contentType.Some? ==> NoLineBreak(contentType.value)
    ensures var lines := HeaderLines(code, contentLength, contentType, date);
      GoodLines(lines) && lines[0] == StatusLine(code)
  {
    StatusLineNoBreak(code);
    ConstLinesNoBreak(date, contentLength);
    var base := [
      StatusLine(code),
      "Date: " + date,
      "Server: " + ServerName,
      "Connection: close",
      "Content-Length: " + IntToString(contentLength)
    ];
    GoodFive(base[0], base[1], base[2], base[3], base[4]);
    assert base == [base[0], base[1], base[2], base[3], base[4]];
    if contentType.Some? && contentType.value != "" {
      var c := "Content-Type: ";
      assert NoLineBreak(c) by { assert forall i :: 0 <= i < |c| ==> c[i] as int >= 32; }
      NoLineBreakConcat(c, contentType.value);
      GoodSnoc(base, c + contentType.value);
    }
  }

  /** Every line is non-empty and free of line breaks. */
  predicate GoodLines(lines: seq<string>)
  {
    forall k :: 0 <= k < |lines| ==> lines[k] != "" && NoLineBreak(lines[k])
  }

  lemma GoodFive(a: string, b: string, c: string, d: string, e: string)
    requires a != "" && b != "" && c != "" && d != "" && e != ""
    requires NoLineBreak(a) && NoLineBreak(b) && NoLineBreak(c) && NoLineBreak(d) && NoLineBreak(e)
    ensures GoodLines([a, b, c, d, e])
  {
  }

  lemma GoodSnoc(lines: seq<string>, l: string)
    requires GoodLines(lines) && l != "" && NoLineBreak(l)
    ensures GoodLines(lines + [l])
  {
  }

  lemma StatusLineNoBreak(code: int)
    ensures StatusLine(code) != "" && NoLineBreak(StatusLine(code))
  {
    var h := "HTTP/1.1 ";
    assert NoLineBreak(h) by { assert forall i :: 0 <= i < |h| ==> h[i] as int >= 32; }
    IntHasNoBreak(code);
    NoLineBreakConcat(h, IntToString(code));
    NoLineBreakConcat(h + IntToString(code), " ");
    MessageNoBreak(code);
    NoLineBreakConcat(h + IntToString(code) + " ", StatusMessage(code));
  }

  lemma MessageNoBreak(code: int)
    ensures NoLineBreak(StatusMessage(code))
  {
    var m := StatusMessage(code);
    assert forall i :: 0 <= i < |m| ==> m[i] as int >= 32;
  }

  lemma ConstLinesNoBreak(date: string, contentLength: int)
    requires NoLineBreak(date)
    ensures NoLineBreak("Date: " + date)
    ensures NoLineBreak("Server: " + ServerName)
    ensures NoLineBreak("Connection: close")
    ensures NoLineBreak("Content-Length: " + IntToString(contentLength))
  {
    var d, sv, c, l := "Date: ", "Server: " + ServerName, "Connection: close", "Content-Length: ";
    assert NoLineBreak(d) by { assert forall i :: 0 <= i < |d| ==> d[i] as int >= 32; }
    assert NoLineBreak(sv) by { assert forall i :: 0 <= i < |sv| ==> sv[i] as int >= 32; }
    assert NoLineBreak(c) by { assert forall i :: 0 <= i < |c| ==> c[i] as int >= 32; }
    assert NoLineBreak(l) by { assert forall i :: 0 <= i < |l| ==> l[i] as int >= 32; }
    NoLineBreakConcat(d, date);
    IntHasNoBreak(contentLength);
    NoLineBreakConcat(l, IntToString(contentLength));
  }
}
