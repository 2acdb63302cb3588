/** Reading a request: the lines up to the blank line, the request line, and
    the header lines split into names and values. */
module Request {
  import opened Wrappers
  import opened Strings

  /** The lines the read loop keeps: those before the first bare CRLF line or
      the end of the input, whichever comes first. The input is what successive
      `read_line` calls return, each line with its terminator; the empty
      string, like the end of the sequence, is `read_line` reporting end of
      stream. */
  function HeadLines(input: seq<string>): (lines: seq<string>)
    ensures |lines| <= |input| && lines == input[..|lines|]
    ensures forall i :: 0 <= i < |lines| ==> lines[i] != "" && lines[i] != "\r\n"
    ensures |lines| < |input| ==> input[|lines|] == "" || input[|lines|] == "\r\n"
  {
    if input == [] || input[0] == "" || input[0] == "\r\n" then []
    else [input[0]] + HeadLines(input[1..])
  }

  /** The `while read_line` loop: pushes each line until a bare CRLF or the
      end of the stream. */
  method CollectLines(input: seq<string>) returns (lines: seq<string>)
    ensures lines == HeadLines(input)
  {
    lines := [];
    var i := 0;
    while true
      invariant 0 <= i <= |input|
      invariant lines == input[..i]
      invariant forall j :: 0 <= j < i ==> input[j] != "" && input[j] != "\r\n"
      decreases |input| - i
    {
      var line := if i < |input| then input[i] else "";
      if line == "" || line == "\r\n" {
        break;
      }
      lines := lines + [line];
      i := i + 1;
    }
    HeadLinesUnique(input, lines);
  }

  /** Any prefix of the input that stops just before a terminator line (or at
      the end) and holds none is the collected head. */
  lemma {:induction false} HeadLinesUnique(input: seq<string>, lines: seq<string>)
    requires |lines| <= |input| && lines == input[..|lines|]
    requires forall i :: 0 <= i < |lines| ==> lines[i] != "" && lines[i] != "\r\n"
    requires |lines| < |input| ==> input[|lines|] == "" || input[|lines|] == "\r\n"
    ensures lines == HeadLines(input)
    decreases |lines|
  {
    if lines != [] {
      assert input[1..][..|lines| - 1] == lines[1..];
      HeadLinesUnique(input[1..], lines[1..]);
      assert lines == [lines[0]] + lines[1..];
    }
  }

  /** The collected head of a request made of `lines`, a terminator and anything after it. */
  lemma {:induction false} HeadLinesOfRequest(lines: seq<string>, terminator: string, rest: seq<string>)
    requires forall i :: 0 <= i < |lines| ==> lines[i] != "" && lines[i] != "\r\n"
    requires terminator == "" || terminator == "\r\n"
    ensures HeadLines(lines + [terminator] + rest) == lines
  {
    var input := lines + [terminator] + rest;
    assert input[..|lines|] == lines;
    HeadLinesUnique(input, lines);
  }

  /** `RequestLine`: the three tokens of the request line. */
  datatype RequestLine = RequestLine(methodName: string, uri: string, version: string)

  /** `check_req_line`: the request line is valid when `split_whitespace`
      yields exactly three tokens, which become method, target and version. */
  function CheckReqLine(line: string): (r: Option<RequestLine>)
    ensures r.Some? <==> |Words(line)| == 3
    ensures r.Some? ==> IsWord(r.value.methodName) && IsWord(r.value.uri) && IsWord(r.value.version)
  {
    var tokens := Words(line);
    if |tokens| == 3 then Some(RequestLine(tokens[0], tokens[1], tokens[2])) else None
  }

  /** A request line written as tokens separated by single spaces and ended by
      CRLF is accepted exactly when there are three tokens, and then yields them in order. */
  lemma RequestLineOfWords(words: seq<string>)
    requires forall i :: 0 <= i < |words| ==> IsWord(words[i])
    ensures CheckReqLine(Join(words, ' ') + "\r\n")
            == if |words| == 3 then Some(RequestLine(words[0], words[1], words[2])) else None
  {
    WordsIgnoreCrlf(Join(words, ' '));
    WordsOfJoin(words);
  }

  /** The same for any layout the handler accepts: tokens separated by runs of
      spaces or tabs, with whitespace (the CRLF among it) allowed at either end. */
  lemma RequestLineOfSpaced(lead: string, words: seq<string>, gaps: seq<string>, trail: string)
    requires |words| == |gaps| + 1
    requires forall i :: 0 <= i < |words| ==> IsWord(words[i])
    requires forall i :: 0 <= i < |gaps| ==> gaps[i] != [] && IsBlank(gaps[i])
    requires IsBlank(lead) && IsBlank(trail)
    ensures CheckReqLine(lead + Spaced(words, gaps) + trail)
            == if |words| == 3 then Some(RequestLine(words[0], words[1], words[2])) else None
  {
    WordsOfSpaced(lead, words, gaps, trail);
  }

  /** The text of a request line with the given tokens. */
  function RequestLineText(methodName: string, uri: string, version: string): string
  {
    methodName + " " + uri + " " + version + "\r\n"
  }

  lemma RequestLineRoundTrip(methodName: string, uri: string, version: string)
    requires IsWord(methodName) && IsWord(uri) && IsWord(version)
    ensures CheckReqLine(RequestLineText(methodName, uri, version)) == Some(RequestLine(methodName, uri, version))
  {
    var words := [methodName, uri, version];
    assert Join(words, ' ') + "\r\n" == RequestLineText(methodName, uri, version) by {
      assert words[1..] == [uri, version];
      assert words[1..][1..] == [version];
      assert Join([version], ' ') == version;
      assert Join([uri, version], ' ') == uri + [' '] + version;
    }
    RequestLineOfWords(words);
  }

  /** One entry of the handler's header list: the trimmed text before the
      first ':' and, when there is a ':', the trimmed text after it. A line
      without a colon has no value. */
  datatype HeaderField = HeaderField(name: string, value: Option<string>)

  /** A header line with every trailing CRLF removed, split at its first ':'
      only, both parts trimmed. */
  function SplitHeader(line: string): HeaderField
  {
    var parts := SplitFirst(TrimEndCrlf(line), ':');
    HeaderField(Trim(parts[0]), if |parts| == 2 then Some(Trim(parts[1])) else None)
  }

  /** Both parts of a split header line are trimmed. */
  lemma SplitHeaderTrimmed(line: string)
    ensures IsTrimmed(SplitHeader(line).name)
    ensures SplitHeader(line).value.Some? ==> IsTrimmed(SplitHeader(line).value.value)
  {
    var parts := SplitFirst(TrimEndCrlf(line), ':');
    assert SplitHeader(line).name == Trim(parts[0]);
  }

  /** A header line gets a value exactly when it holds a colon (trailing CRLFs
      removed first are never colons), and the name never holds a colon. */
  lemma HeaderValuePresent(line: string)
    ensures SplitHeader(line).value.Some? <==> ':' in line
    ensures ':' !in SplitHeader(line).name
  {
    var text := TrimEndCrlf(line);
    assert line == text + line[|text|..];
    assert forall i :: |text| <= i < |line| ==> line[i] != ':';
    var first := SplitFirst(text, ':')[0];
    TrimWithin(first);
  }

  /** The header line a client writes for `name` and `value`. */
  function HeaderText(name: string, value: string): string
  {
    name + ": " + value + "\r\n"
  }

  /** A header written as `name: value` with CRLF splits back into that name
      and value; colons inside the value stay in the value. */
  lemma HeaderRoundTrip(name: string, value: string)
    requires ':' !in name
    requires IsTrimmed(name) && IsTrimmed(value)
    ensures SplitHeader(HeaderText(name, value)) == HeaderField(name, Some(value))
  {
    var rest := " " + value;
    var text := name + [':'] + rest;
    var line := name + ": " + value + "\r\n";
    assert line == text + "\r\n" by {
      assert ": " == [':'] + " ";
      assert name + ": " + value == name + [':'] + rest;
    }
    HeaderTextHasNoCrlf(name, value);
    TrimCrlfOnce(text);
    assert TrimEndCrlf(line) == text;
    SplitFirstAt(name, ':', rest);
    TrimSkipsLeading(' ', value);
    assert [' '] + value == rest;
    TrimTrimmed(name);
    TrimTrimmed(value);
  }

  /** A header line without a colon is all name and has no value. */
  lemma BareHeader(name: string)
    requires ':' !in name && IsTrimmed(name)
    ensures SplitHeader(name + "\r\n") == HeaderField(name, None)
  {
    assert !EndsWithCrlf(name) by {
      if |name| >= 2 {
        assert !IsWhitespace(name[|name| - 1]);
      }
    }
    TrimCrlfOnce(name);
    assert SplitFirst(name, ':') == [name];
    TrimTrimmed(name);
  }

  /** A trimmed value does not end in CRLF, so neither does `name: value`. */
  lemma HeaderTextHasNoCrlf(name: string, value: string)
    requires IsTrimmed(value)
    ensures !EndsWithCrlf(name + [':'] + (" " + value))
  {
    var text := name + [':'] + (" " + value);
    if value != [] {
      assert text[|text| - 1] == value[|value| - 1];
    } else {
      assert text[|text| - 1] == ' ';
    }
  }

  /** `splitn(2, c)` cuts at the `c` that follows a `c`-free prefix. */
  lemma SplitFirstAt(a: string, c: char, b: string)
    requires c !in a
    ensures SplitFirst(a + [c] + b, c) == [a, b]
  {
    var s := a + [c] + b;
    IndexOfPrefix(a, c, b);
    assert s[..|a|] == a && s[|a| + 1..] == b;
  }

  /** Removing trailing CRLFs from a line that ends in exactly one CRLF. */
  lemma TrimCrlfOnce(s: string)
    requires !EndsWithCrlf(s)
    ensures TrimEndCrlf(s + "\r\n") == s
  {
    assert (s + "\r\n")[..|s|] == s;
  }

  /** The first `c` after a `c`-free prefix is the one right after it. */
  lemma {:induction false} IndexOfPrefix(a: string, c: char, b: string)
    requires c !in a
    ensures IndexOf(a + [c] + b, c) == |a|
    decreases |a|
  {
    if a != [] {
      assert (a + [c] + b)[1..] == a[1..] + [c] + b;
      IndexOfPrefix(a[1..], c, b);
    }
  }

  /** The header list the handler builds from the lines after the request line. */
  function Fields(headerLines: seq<string>): (fields: seq<HeaderField>)
    ensures |fields| == |headerLines|
  {
    seq(|headerLines|, i requires 0 <= i < |headerLines| => SplitHeader(headerLines[i]))
  }

  /** The `for` loop over the header lines: one split entry per line, in arrival order. */
  method ParseHeaders(headerLines: seq<string>) returns (header: seq<HeaderField>)
    ensures header == Fields(headerLines)
  {
    header := [];
    for i := 0 to |headerLines|
      invariant header == Fields(headerLines[..i])
    {
      var field := SplitHeader(headerLines[i]);
      header := header + [field];
      assert headerLines[..i + 1] == headerLines[..i] + [headerLines[i]];
      FieldsAppend(headerLines[..i], headerLines[i]);
    }
    assert headerLines[..|headerLines|] == headerLines;
  }

  /** One more line adds its entry at the end. */
  lemma FieldsAppend(lines: seq<string>, line: string)
    ensures Fields(lines + [line]) == Fields(lines) + [SplitHeader(line)]
  {
  }

  /** `iter().find(..)` by name: the index of the first entry called `name`,
      or `|header|` when there is none. */
  function FirstNamed(header: seq<HeaderField>, name: string): (k: nat)
    ensures k <= |header|
    ensures k < |header| ==> header[k].name == name
    ensures forall j :: 0 <= j < k ==> header[j].name != name
  {
    if header == [] || header[0].name == name then 0 else 1 + FirstNamed(header[1..], name)
  }
}
