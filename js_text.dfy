/** The JavaScript String built-ins the serial decoder relies on: `trim`,
    `split` with a one-character separator, and `startsWith`, which is
    Dafny's sequence-prefix operator `<=`. Strings are sequences of code
    points. */
module JsText {

  /** ECMAScript's WhiteSpace and LineTerminator code points: the characters
      that `String.prototype.trim` removes and `parseFloat` skips. */
  predicate IsWhiteSpace(c: char) {
    ('\t' <= c <= '\r') || c == ' ' || ('\U{00A0}' <= c && IsWideWhiteSpace(c))
  }

  /** The white space above the ASCII range: NO-BREAK SPACE, the other
      space separators, LINE and PARAGRAPH SEPARATOR, and the byte order mark. */
  predicate IsWideWhiteSpace(c: char) {
    c == '\U{00A0}' || c == '\U{1680}' || ('\U{2000}' <= c <= '\U{200A}')
    || c == '\U{2028}' || c == '\U{2029}' || c == '\U{202F}' || c == '\U{205F}'
    || c == '\U{3000}' || c == '\U{FEFF}'
  }

  predicate AllWhiteSpace(s: string) {
    forall i :: 0 <= i < |s| ==> IsWhiteSpace(s[i])
  }

  /** `s` without its leading white space: the longest suffix of `s` that
      does not start with white space, everything cut off being white space. */
  function TrimStart(s: string): (r: string)
    ensures |r| <= |s| && r == s[|s| - |r|..]
    ensures forall i :: 0 <= i < |s| - |r| ==> IsWhiteSpace(s[i])
    ensures r != [] ==> !IsWhiteSpace(r[0])
  {
    if s != [] && IsWhiteSpace(s[0]) then TrimStart(s[1..]) else s
  }

  /** `s` without its trailing white space. */
  function TrimEnd(s: string): (r: string)
    ensures |r| <= |s| && r == s[..|r|]
    ensures forall i :: |r| <= i < |s| ==> IsWhiteSpace(s[i])
    ensures r != [] ==> !IsWhiteSpace(r[|r| - 1])
  {
    if s != [] && IsWhiteSpace(s[|s| - 1]) then TrimEnd(s[..|s| - 1]) else s
  }

  /** `String.prototype.trim`. */
  function Trim(s: string): string {
    TrimEnd(TrimStart(s))
  }

  /** `String.prototype.startsWith(prefix)`: an exact, case-sensitive
      comparison of the first `|prefix|` characters. */
  predicate StartsWith(s: string, prefix: string) {
    prefix == [] || (s != [] && s[0] == prefix[0] && StartsWith(s[1..], prefix[1..]))
  }

  /** `StartsWith` is the sequence-prefix relation. */
  lemma {:induction false} StartsWithIsPrefix(s: string, prefix: string)
    ensures StartsWith(s, prefix) <==> prefix <= s
  {
    if prefix != [] && s != [] {
      StartsWithIsPrefix(s[1..], prefix[1..]);
      assert prefix == [prefix[0]] + prefix[1..];
      assert s == [s[0]] + s[1..];
    }
  }

  /** The position of the first `sep` in `s`. */
  function FirstIndex(s: string, sep: char): (k: nat)
    requires sep in s
    ensures k < |s| && s[k] == sep && sep !in s[..k]
  {
    if s[0] == sep then 0 else 1 + FirstIndex(s[1..], sep)
  }

  /** `String.prototype.split(sep)` for a one-character separator: the
      pieces between separators, always at least one (`"".split(",")` is
      `[""]`). */
  function Split(s: string, sep: char): (parts: seq<string>)
    ensures |parts| >= 1
    decreases |s|
  {
    if sep !in s then [s]
    else
      var k := FirstIndex(s, sep);
      [s[..k]] + Split(s[k + 1..], sep)
  }

  /** `Array.prototype.join(sep)`. */
  function Join(parts: seq<string>, sep: char): string
    requires |parts| >= 1
  {
    if |parts| == 1 then parts[0] else parts[0] + [sep] + Join(parts[1..], sep)
  }

  /** The first separator of a text ends its first piece. */
  lemma SplitAt(a: string, b: string, sep: char)
    requires sep !in a
    ensures Split(a + [sep] + b, sep) == [a] + Split(b, sep)
  {
    var s := a + [sep] + b;
    assert s[|a|] == sep;
    var k := FirstIndex(s, sep);
    assert k == |a|;
    assert s[..k] == a;
    assert s[k + 1..] == b;
  }

  /** The first piece runs up to the first separator, or is the whole text. */
  lemma SplitFirstPiece(s: string, sep: char)
    ensures Split(s, sep)[0] == if sep in s then s[..FirstIndex(s, sep)] else s
  {
  }

  /** Joining the pieces of a split gives back the original text. */
  lemma {:induction false} JoinSplit(s: string, sep: char)
    ensures Join(Split(s, sep), sep) == s
    decreases |s|
  {
    if sep in s {
      var k := FirstIndex(s, sep);
      JoinSplit(s[k + 1..], sep);
      assert s == s[..k] + [sep] + s[k + 1..];
    }
  }

  /** Splitting a join of separator-free pieces gives back the pieces. */
  lemma {:induction false} SplitJoin(parts: seq<string>, sep: char)
    requires |parts| >= 1
    requires forall i :: 0 <= i < |parts| ==> sep !in parts[i]
    ensures Split(Join(parts, sep), sep) == parts
  {
    if |parts| == 1 {
      assert Join(parts, sep) == parts[0];
    } else {
      var rest := parts[1..];
      assert forall i :: 0 <= i < |rest| ==> rest[i] == parts[i + 1];
      SplitJoin(rest, sep);
      assert Join(parts, sep) == parts[0] + [sep] + Join(rest, sep);
      SplitAt(parts[0], Join(rest, sep), sep);
      assert parts == [parts[0]] + rest;
    }
  }

  /** No piece of a split contains the separator. */
  lemma {:induction false} SplitPiecesLackSeparator(s: string, sep: char)
    ensures forall i :: 0 <= i < |Split(s, sep)| ==> sep !in Split(s, sep)[i]
    decreases |s|
  {
    if sep in s {
      var k := FirstIndex(s, sep);
      SplitPiecesLackSeparator(s[k + 1..], sep);
    }
  }

  /** Leading white space does not change what `TrimStart` keeps. */
  lemma {:induction false} TrimStartSkipsWhiteSpace(ws: string, s: string)
    requires AllWhiteSpace(ws)
    ensures TrimStart(ws + s) == TrimStart(s)
  {
    if ws != [] {
      assert (ws + s)[0] == ws[0] && (ws + s)[1..] == ws[1..] + s;
      TrimStartSkipsWhiteSpace(ws[1..], s);
    } else {
      assert ws + s == s;
    }
  }

  /** Trailing white space does not change what `TrimEnd` keeps. */
  lemma {:induction false} TrimEndSkipsWhiteSpace(s: string, ws: string)
    requires AllWhiteSpace(ws)
    ensures TrimEnd(s + ws) == TrimEnd(s)
  {
    if ws != [] {
      var w := ws[..|ws| - 1];
      assert (s + ws)[|s + ws| - 1] == ws[|ws| - 1];
      assert (s + ws)[..|s + ws| - 1] == s + w;
      TrimEndSkipsWhiteSpace(s, w);
    } else {
      assert s + ws == s;
    }
  }

  /** A text is the white space `TrimStart` removes followed by what it keeps. */
  lemma TrimStartParts(s: string)
    ensures s == s[..|s| - |TrimStart(s)|] + TrimStart(s)
    ensures AllWhiteSpace(s[..|s| - |TrimStart(s)|])
  {
  }

  lemma WhiteSpaceConcat(a: string, b: string)
    requires AllWhiteSpace(a) && AllWhiteSpace(b)
    ensures AllWhiteSpace(a + b)
  {
  }

  lemma Regroup(before: string, s: string, after: string, w: string, t: string)
    requires s == w + t
    ensures before + s + after == (before + w) + (t + after)
  {
  }

  /** `trim` ignores white space on either side of a line. */
  lemma TrimIgnoresSurroundingWhiteSpace(before: string, s: string, after: string)
    requires AllWhiteSpace(before) && AllWhiteSpace(after)
    ensures Trim(before + s + after) == Trim(s)
  {
    var t := TrimStart(s);
    var w := s[..|s| - |t|];
    TrimStartParts(s);
    WhiteSpaceConcat(before, w);
    Regroup(before, s, after, w, t);
    TrimStartSkipsWhiteSpace(before + w, t + after);
    assert TrimStart(before + s + after) == TrimStart(t + after);
    if t == [] {
      BlankTrimStart(after);
      assert t + after == after;
    } else {
      KeptTrim(t, after);
    }
  }

  /** White space trims to nothing. */
  lemma BlankTrimStart(ws: string)
    requires AllWhiteSpace(ws)
    ensures TrimStart(ws) == []
  {
    TrimStartSkipsWhiteSpace(ws, []);
    assert ws + [] == ws;
  }

  /** Text that starts with something other than white space, followed by
      white space, trims to the text's own end-trim. */
  lemma KeptTrim(t: string, ws: string)
    requires t != [] && !IsWhiteSpace(t[0]) && AllWhiteSpace(ws)
    ensures TrimEnd(TrimStart(t + ws)) == TrimEnd(t)
  {
    assert (t + ws)[0] == t[0];
    assert TrimStart(t + ws) == t + ws;
    TrimEndSkipsWhiteSpace(t, ws);
  }

  /** A text that already starts and ends with something other than white
      space is its own trim. */
  lemma TrimOfTrimmed(s: string)
    requires s != [] ==> !IsWhiteSpace(s[0]) && !IsWhiteSpace(s[|s| - 1])
    ensures Trim(s) == s
  {
  }
}
