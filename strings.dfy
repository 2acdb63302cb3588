/** The parts of Rust's `str` API that the request handler relies on, with the
    semantics Rust gives them: `split`, `split_whitespace`, `splitn(2, ..)`,
    `trim`, `trim_end_matches`, `trim_start_matches` and `usize::from_str`. */
module Strings {
  import opened Wrappers

  /** Rust's `char::is_whitespace`: the characters with the Unicode White_Space property. */
  predicate IsWhitespace(c: char) {
    ('\t' <= c <= '\r') || c == ' ' || c == '\U{85}' || c == '\U{A0}' || c == '\U{1680}'
    || ('\U{2000}' <= c <= '\U{200A}') || c == '\U{2028}' || c == '\U{2029}'
    || c == '\U{202F}' || c == '\U{205F}' || c == '\U{3000}'
  }

  /** A token as `split_whitespace` yields it: non-empty and free of whitespace. */
  predicate IsWord(s: string) {
    s != [] && forall i :: 0 <= i < |s| ==> !IsWhitespace(s[i])
  }

  /** The inverse of splitting: the parts with `sep` between neighbours. */
  function Join(parts: seq<string>, sep: char): string
  {
    if parts == [] then []
    else if |parts| == 1 then parts[0]
    else parts[0] + [sep] + Join(parts[1..], sep)
  }

  /** Rust's `str::split` with a character predicate as the pattern: the pieces
      between separators, keeping the empty pieces at either end and between
      adjacent separators. */
  function SplitWhere(s: string, isSep: char -> bool): (parts: seq<string>)
    ensures |parts| >= 1
    ensures forall i, j :: 0 <= i < |parts| && 0 <= j < |parts[i]| ==> !isSep(parts[i][j])
    decreases |s|
  {
    if s == [] then [[]]
    else
      var rest := SplitWhere(s[1..], isSep);
      if isSep(s[0]) then [[]] + rest
      else [[s[0]] + rest[0]] + rest[1..]
  }

  /** Rust's `str::split` with a one-character pattern. */
  function Split(s: string, sep: char): (parts: seq<string>)
    ensures |parts| >= 1
    ensures forall i :: 0 <= i < |parts| ==> sep !in parts[i]
  {
    var parts := SplitWhere(s, c => c == sep);
    assert forall i :: 0 <= i < |parts| ==> sep !in parts[i] by {
      forall i | 0 <= i < |parts| ensures sep !in parts[i] {
        assert forall j :: 0 <= j < |parts[i]| ==> parts[i][j] != sep;
      }
    }
    parts
  }

  /** Rust's `split_whitespace`: `split` on whitespace with the empty pieces dropped. */
  function Words(s: string): (words: seq<string>)
    ensures forall w :: w in words ==> IsWord(w)
  {
    var pieces := SplitWhere(s, IsWhitespace);
    var words := NonEmpty(pieces);
    assert forall w :: w in words ==> IsWord(w) by {
      forall w | w in words ensures IsWord(w) {
        var i :| 0 <= i < |pieces| && pieces[i] == w;
      }
    }
    words
  }

  /** The non-empty elements of `parts`, in order. */
  function NonEmpty(parts: seq<string>): (r: seq<string>)
    ensures forall w :: w in r ==> w in parts && w != []
  {
    if parts == [] then []
    else (if parts[0] == [] then [] else [parts[0]]) + NonEmpty(parts[1..])
  }

  /** The index of the first `c` in `s`, or `|s|` when `c` does not occur. */
  function IndexOf(s: string, c: char): (k: nat)
    ensures k <= |s|
    ensures k < |s| ==> s[k] == c
    ensures forall j :: 0 <= j < k ==> s[j] != c
  {
    if s == [] || s[0] == c then 0 else 1 + IndexOf(s[1..], c)
  }

  /** Rust's `splitn(2, c)`: the whole string when `c` does not occur, else the
      part before the first `c` and everything after it. */
  function SplitFirst(s: string, c: char): (parts: seq<string>)
    ensures 1 <= |parts| <= 2
    ensures |parts| == 1 <==> c !in s
    ensures c !in parts[0]
    ensures Join(parts, c) == s
  {
    var k := IndexOf(s, c);
    if k == |s| then [s] else [s[..k], s[k + 1..]]
  }

  /** How many leading characters of `s` are `c`. */
  function LeadingChar(s: string, c: char): (k: nat)
    ensures k <= |s|
    ensures forall i :: 0 <= i < k ==> s[i] == c
    ensures k == |s| || s[k] != c
  {
    if s != [] && s[0] == c then 1 + LeadingChar(s[1..], c) else 0
  }

  /** How many leading characters of `s` are whitespace. */
  function LeadingWhitespace(s: string): (k: nat)
    ensures k <= |s|
    ensures forall i :: 0 <= i < k ==> IsWhitespace(s[i])
    ensures k == |s| || !IsWhitespace(s[k])
  {
    if s != [] && IsWhitespace(s[0]) then 1 + LeadingWhitespace(s[1..]) else 0
  }

  /** Rust's `trim_start_matches` with a one-character pattern: every leading
      `c` removed. */
  function TrimStartChar(s: string, c: char): string
  {
    s[LeadingChar(s, c)..]
  }

  /** Rust's `trim_end` (trailing whitespace removed). */
  function TrimEnd(s: string): (r: string)
    ensures |r| <= |s| && r == s[..|r|]
    ensures r == [] || !IsWhitespace(r[|r| - 1])
    ensures forall i :: |r| <= i < |s| ==> IsWhitespace(s[i])
    decreases |s|
  {
    if s != [] && IsWhitespace(s[|s| - 1]) then TrimEnd(s[..|s| - 1]) else s
  }

  /** Rust's `trim`: leading and trailing whitespace removed. */
  function Trim(s: string): (r: string)
    ensures IsTrimmed(r)
  {
    var front := s[LeadingWhitespace(s)..];
    var r := TrimEnd(front);
    assert r != [] ==> r[0] == front[0];
    r
  }

  predicate EndsWithCrlf(s: string) {
    |s| >= 2 && s[|s| - 2] == '\r' && s[|s| - 1] == '\n'
  }

  /** Rust's `trim_end_matches("\r\n")`: every trailing CRLF removed, so what is
      cut off is CRLF repeated. */
  function TrimEndCrlf(s: string): (r: string)
    ensures |r| <= |s| && r == s[..|r|]
    ensures !EndsWithCrlf(r)
    ensures (|s| - |r|) % 2 == 0
    ensures forall i :: |r| <= i < |s| ==> s[i] == if (i - |r|) % 2 == 0 then '\r' else '\n'
    decreases |s|
  {
    if EndsWithCrlf(s) then TrimEndCrlf(s[..|s| - 2]) else s
  }

  /** The largest `usize` of a 64-bit target. */
  const UsizeMax: nat := 0xFFFF_FFFF_FFFF_FFFF

  predicate IsDigit(c: char) {
    '0' <= c <= '9'
  }

  predicate AllDigits(s: string) {
    forall i :: 0 <= i < |s| ==> IsDigit(s[i])
  }

  /** The value of a string of decimal digits, most significant first. */
  function DigitsValue(s: string): nat
    requires AllDigits(s)
    decreases |s|
  {
    if s == [] then 0 else 10 * DigitsValue(s[..|s| - 1]) + (s[|s| - 1] as int - '0' as int)
  }

  /** Rust's `<usize as FromStr>::from_str`: an optional '+', then one or more
      decimal digits whose value fits in a usize. Anything else is an error. */
  function ParseUsize(s: string): (r: Option<nat>)
    ensures r.Some? ==> r.value <= UsizeMax
    ensures r.Some? ==> s != [] && forall i :: 0 <= i < |s| ==> IsDigit(s[i]) || (i == 0 && s[i] == '+')
  {
    var digits := if s != [] && s[0] == '+' then s[1..] else s;
    if digits != [] && AllDigits(digits) && DigitsValue(digits) <= UsizeMax
    then Some(DigitsValue(digits))
    else None
  }

  /** Every optional '+' followed by decimal digits of a usize value is
      accepted, with the digits' value. */
  lemma ParseUsizeDigits(digits: string)
    requires digits != [] && AllDigits(digits) && DigitsValue(digits) <= UsizeMax
    ensures ParseUsize(digits) == Some(DigitsValue(digits))
    ensures ParseUsize("+" + digits) == Some(DigitsValue(digits))
  {
    assert ("+" + digits)[1..] == digits;
    assert digits[0] != '+';
  }

  /** Everything else is rejected: the empty string, a bare '+', and digits
      whose value does not fit a usize, with or without a '+'. */
  lemma ParseUsizeRejects(digits: string)
    requires AllDigits(digits) && (digits == [] || DigitsValue(digits) > UsizeMax)
    ensures ParseUsize(digits) == None
    ensures ParseUsize("+" + digits) == None
  {
    assert ("+" + digits)[1..] == digits;
    assert digits != [] ==> digits[0] != '+';
  }

  /** A leading zero changes neither that a string is all digits nor its
      value, so "007" reads as 7. */
  lemma {:induction false} LeadingZero(digits: string)
    requires AllDigits(digits)
    ensures AllDigits("0" + digits) && DigitsValue("0" + digits) == DigitsValue(digits)
    decreases |digits|
  {
    var z := "0" + digits;
    if digits != [] {
      var init := digits[..|digits| - 1];
      LeadingZero(init);
      assert z[..|z| - 1] == "0" + init;
    }
  }

  /** The decimal rendering of `n` (Rust's `to_string` on an integer). */
  function Decimal(n: nat): (s: string)
    ensures s != [] && AllDigits(s)
    ensures DigitsValue(s) == n
  {
    var last := [('0' as int + n % 10) as char];
    if n < 10 then last
    else
      var s := Decimal(n / 10) + last;
      assert s[..|s| - 1] == Decimal(n / 10);
      s
  }

  // ---- lemmas ----

  /** A separator splits the string into the pieces of its two sides. */
  lemma {:induction false} SplitWhereAround(a: string, x: char, b: string, isSep: char -> bool)
    requires isSep(x)
    ensures SplitWhere(a + [x] + b, isSep) == SplitWhere(a, isSep) + SplitWhere(b, isSep)
    decreases |a|
  {
    if a == [] {
      assert a + [x] + b == [x] + b;
      assert ([x] + b)[1..] == b;
    } else {
      assert (a + [x] + b)[1..] == a[1..] + [x] + b;
      SplitWhereAround(a[1..], x, b, isSep);
    }
  }

  /** A string with no separator is a single piece. */
  lemma {:induction false} SplitWhereWhole(p: string, isSep: char -> bool)
    requires forall i :: 0 <= i < |p| ==> !isSep(p[i])
    ensures SplitWhere(p, isSep) == [p]
    decreases |p|
  {
    if p != [] {
      SplitWhereWhole(p[1..], isSep);
      assert [p[0]] + p[1..] == p;
    }
  }

  /** `split` on one character cuts at each occurrence independently. */
  lemma SplitAround(a: string, sep: char, b: string)
    ensures Split(a + [sep] + b, sep) == Split(a, sep) + Split(b, sep)
  {
    SplitWhereAround(a, sep, b, c => c == sep);
  }

  /** A string without the separator is one piece. */
  lemma SplitWhole(p: string, sep: char)
    requires sep !in p
    ensures Split(p, sep) == [p]
  {
    SplitWhereWhole(p, c => c == sep);
  }

  /** Splitting and joining on the same character gives the string back. */
  lemma {:induction false} SplitJoin(s: string, sep: char)
    ensures Join(Split(s, sep), sep) == s
    decreases |s|
  {
    if s != [] {
      var rest := Split(s[1..], sep);
      SplitJoin(s[1..], sep);
      if s[0] == sep {
        assert ([[]] + rest)[1..] == rest;
        assert s == [s[0]] + s[1..];
      } else {
        var parts := [[s[0]] + rest[0]] + rest[1..];
        if |rest| == 1 {
          assert s == [s[0]] + s[1..];
        } else {
          assert parts[1..] == rest[1..];
          assert Join(rest, sep) == rest[0] + [sep] + Join(rest[1..], sep);
          assert s == [s[0]] + s[1..];
        }
      }
    }
  }

  /** Joining separator-free pieces and splitting again gives the pieces back. */
  lemma {:induction false} JoinSplit(parts: seq<string>, sep: char)
    requires parts != []
    requires forall i :: 0 <= i < |parts| ==> sep !in parts[i]
    ensures Split(Join(parts, sep), sep) == parts
    decreases |parts|
  {
    if |parts| == 1 {
      SplitWhole(parts[0], sep);
    } else {
      JoinSplit(parts[1..], sep);
      SplitAround(parts[0], sep, Join(parts[1..], sep));
      SplitWhole(parts[0], sep);
      assert [parts[0]] + parts[1..] == parts;
    }
  }

  /** `split` yields one more piece than there are separators. */
  lemma {:induction false} SplitCount(s: string, sep: char)
    ensures |Split(s, sep)| == multiset(s)[sep] + 1
    decreases |s|
  {
    if s != [] {
      SplitCount(s[1..], sep);
      assert s == [s[0]] + s[1..];
      assert multiset(s) == multiset([s[0]]) + multiset(s[1..]);
    }
  }

  /** Dropping empty pieces commutes with concatenation. */
  lemma {:induction false} NonEmptyAppend(a: seq<string>, b: seq<string>)
    ensures NonEmpty(a + b) == NonEmpty(a) + NonEmpty(b)
    decreases |a|
  {
    if a == [] {
      assert a + b == b;
    } else {
      assert (a + b)[0] == a[0];
      assert (a + b)[1..] == a[1..] + b;
      NonEmptyAppend(a[1..], b);
    }
  }

  /** `split_whitespace` recovers words joined by single spaces. */
  lemma {:induction false} WordsOfJoin(words: seq<string>)
    requires forall i :: 0 <= i < |words| ==> IsWord(words[i])
    ensures Words(Join(words, ' ')) == words
    decreases |words|
  {
    if words == [] {
      assert NonEmpty([[]]) == [] + NonEmpty([]);
    } else if |words| == 1 {
      SplitWhereWhole(words[0], IsWhitespace);
      assert [words[0]][1..] == [];
      assert NonEmpty([words[0]]) == [words[0]] + NonEmpty([]);
    } else {
      WordsOfJoin(words[1..]);
      SplitWhereAround(words[0], ' ', Join(words[1..], ' '), IsWhitespace);
      SplitWhereWhole(words[0], IsWhitespace);
      NonEmptyAppend([words[0]], SplitWhere(Join(words[1..], ' '), IsWhitespace));
      assert [words[0]] + words[1..] == words;
    }
  }

  /** A trailing CRLF adds no token: both characters are whitespace. */
  lemma WordsIgnoreCrlf(s: string)
    ensures Words(s + "\r\n") == Words(s)
  {
    var pieces := SplitWhere(s, IsWhitespace);
    var tail: string := "\n";
    assert s + "\r\n" == s + ['\r'] + tail;
    SplitWhereAround(s, '\r', tail, IsWhitespace);
    assert tail == [] + ['\n'] + [];
    SplitWhereAround([], '\n', [], IsWhitespace);
    var empties: seq<string> := [[], []];
    assert SplitWhere(tail, IsWhitespace) == empties;
    NonEmptyAppend(pieces, empties);
    assert NonEmpty(empties) == [] by {
      assert empties[1..] == [[]];
      assert NonEmpty([[]]) == [] + NonEmpty([]);
    }
  }

  /** A run of whitespace, possibly empty. */
  predicate IsBlank(s: string) {
    forall i :: 0 <= i < |s| ==> IsWhitespace(s[i])
  }

  /** Tokens with a gap between neighbours: `words[0] + gaps[0] + words[1] + ...`. */
  function Spaced(words: seq<string>, gaps: seq<string>): string
    requires |words| == |gaps| + 1
    decreases |gaps|
  {
    if gaps == [] then words[0] else words[0] + gaps[0] + Spaced(words[1..], gaps[1..])
  }

  /** One whitespace character cuts the tokens of either side apart. */
  lemma WordsAround(a: string, c: char, b: string)
    requires IsWhitespace(c)
    ensures Words(a + [c] + b) == Words(a) + Words(b)
  {
    SplitWhereAround(a, c, b, IsWhitespace);
    NonEmptyAppend(SplitWhere(a, IsWhitespace), SplitWhere(b, IsWhitespace));
  }

  /** Whitespace alone has no tokens. */
  lemma {:induction false} WordsOfBlank(w: string)
    requires IsBlank(w)
    ensures Words(w) == []
    decreases |w|
  {
    if w == [] {
      assert NonEmpty([[]]) == [] + NonEmpty([]);
    } else {
      WordsOfBlank(w[1..]);
      WordsAround([], w[0], w[1..]);
      assert [] + [w[0]] + w[1..] == w;
      WordsOfBlank([]);
    }
  }

  /** Whitespace in front adds no token. */
  lemma {:induction false} WordsSkipLeading(w: string, s: string)
    requires IsBlank(w)
    ensures Words(w + s) == Words(s)
    decreases |w|
  {
    if w != [] {
      var empty: string := [];
      WordsAround(empty, w[0], w[1..] + s);
      assert empty + [w[0]] + (w[1..] + s) == w + s;
      WordsSkipLeading(w[1..], s);
      WordsOfBlank(empty);
    } else {
      assert w + s == s;
    }
  }

  /** Whitespace behind adds no token. */
  lemma {:induction false} WordsSkipTrailing(s: string, w: string)
    requires IsBlank(w)
    ensures Words(s + w) == Words(s)
    decreases |w|
  {
    if w != [] {
      var last := |w| - 1;
      var empty: string := [];
      WordsAround(s + w[..last], w[last], empty);
      assert s + w[..last] + [w[last]] + empty == s + w;
      WordsSkipTrailing(s, w[..last]);
      WordsOfBlank(empty);
    } else {
      assert s + w == s;
    }
  }

  /** `split_whitespace` recovers tokens separated by any non-empty runs of
      whitespace, whatever whitespace surrounds them. */
  lemma {:induction false} WordsOfSpaced(lead: string, words: seq<string>, gaps: seq<string>, trail: string)
    requires |words| == |gaps| + 1
    requires forall i :: 0 <= i < |words| ==> IsWord(words[i])
    requires forall i :: 0 <= i < |gaps| ==> gaps[i] != [] && IsBlank(gaps[i])
    requires IsBlank(lead) && IsBlank(trail)
    ensures Words(lead + Spaced(words, gaps) + trail) == words
    decreases |gaps|
  {
    var s := Spaced(words, gaps);
    WordsSkipLeading(lead, s + trail);
    assert lead + s + trail == lead + (s + trail);
    WordsSkipTrailing(s, trail);
    if gaps == [] {
      SplitWhereWhole(words[0], IsWhitespace);
      assert NonEmpty([words[0]]) == [words[0]] + NonEmpty([]);
    } else {
      var gap := gaps[0];
      var rest := Spaced(words[1..], gaps[1..]);
      WordsOfSpaced(gap[1..], words[1..], gaps[1..], []);
      assert gap[1..] + rest + [] == gap[1..] + rest;
      WordsAround(words[0], gap[0], gap[1..] + rest);
      assert s == words[0] + [gap[0]] + (gap[1..] + rest);
      WordsOfSpaced([], [words[0]], [], []);
      assert [] + Spaced([words[0]], []) + [] == words[0];
      assert [words[0]] + words[1..] == words;
    }
  }

  /** No whitespace at either end. */
  predicate IsTrimmed(s: string) {
    s == [] || (!IsWhitespace(s[0]) && !IsWhitespace(s[|s| - 1]))
  }

  /** `trim` leaves a string alone exactly when it has no whitespace at either end. */
  lemma TrimTrimmed(s: string)
    ensures Trim(s) == s <==> IsTrimmed(s)
  {
  }

  /** `trim` returns a slice of its argument, and what it cuts off at either
      end is whitespace. */
  lemma TrimSlice(s: string)
    ensures var i := LeadingWhitespace(s);
            i + |Trim(s)| <= |s| && Trim(s) == s[i..i + |Trim(s)|]
            && (forall k :: 0 <= k < i ==> IsWhitespace(s[k]))
            && (forall k :: i + |Trim(s)| <= k < |s| ==> IsWhitespace(s[k]))
  {
    var i := LeadingWhitespace(s);
    var front := s[i..];
    var r := TrimEnd(front);
    assert Trim(s) == r;
    assert r == s[i..i + |r|] by {
      assert r == front[..|r|];
    }
    forall k | i + |r| <= k < |s|
      ensures IsWhitespace(s[k])
    {
      assert s[k] == front[k - i];
    }
  }

  /** `trim` only removes characters. */
  lemma TrimWithin(s: string)
    ensures forall c :: c in Trim(s) ==> c in s
  {
    TrimSlice(s);
  }

  /** Leading whitespace does not change what `trim` returns. */
  lemma TrimSkipsLeading(c: char, s: string)
    requires IsWhitespace(c)
    ensures Trim([c] + s) == Trim(s)
  {
    assert ([c] + s)[1..] == s;
  }

  /** `usize::from_str` reads back the decimal rendering of every usize, with or without a '+'. */
  lemma ParseUsizeDecimal(n: nat)
    requires n <= UsizeMax
    ensures ParseUsize(Decimal(n)) == Some(n)
    ensures ParseUsize("+" + Decimal(n)) == Some(n)
  {
    assert ("+" + Decimal(n))[1..] == Decimal(n);
  }
}
