/** String helpers of the Go standard library that the form engine relies
    on: `strings.Split` with a one-character separator, `html.EscapeString`,
    and the `^[A-Za-z]*$` key pattern. */
module Text {

  /** The concatenation of a sequence of strings. */
  function Concat(parts: seq<string>): string
    decreases |parts|
  {
    if parts == [] then "" else parts[0] + Concat(parts[1..])
  }

  /** `parts` glued back together with `sep` between neighbours
      (the inverse of `Split`). */
  function Join(parts: seq<string>, sep: char): string
    requires |parts| >= 1
    decreases |parts|
  {
    if |parts| == 1 then parts[0] else parts[0] + [sep] + Join(parts[1..], sep)
  }

  /** `strings.Split(s, sep)` for a one-character separator: the maximal
      separator-free pieces of `s`, in order. Even the empty string yields one
      (empty) piece, so a split never has zero parts. */
  function Split(s: string, sep: char): (parts: seq<string>)
    ensures |parts| >= 1
    ensures forall i :: 0 <= i < |parts| ==> sep !in parts[i]
    ensures Join(parts, sep) == s
    decreases |s|
  {
    if |s| == 0 then [""]
    else
      var rest := Split(s[1..], sep);
      if s[0] == sep then [""] + rest
      else [[s[0]] + rest[0]] + rest[1..]
  }

  /** Joining two pieces puts one separator between them. */
  lemma JoinTwo(parts: seq<string>, sep: char)
    requires |parts| == 2
    ensures Join(parts, sep) == parts[0] + [sep] + parts[1]
  {
    assert parts[1..] == [parts[1]];
  }

  /** Splitting a join of separator-free pieces gives the pieces back. */
  lemma {:induction false} SplitJoin(parts: seq<string>, sep: char)
    requires |parts| >= 1
    requires forall i :: 0 <= i < |parts| ==> sep !in parts[i]
    ensures Split(Join(parts, sep), sep) == parts
    decreases |parts|, |parts[0]|
  {
    var p := parts[0];
    if |parts| == 1 {
      SplitFree(p, sep);
    } else if p == "" {
      var tail := Join(parts[1..], sep);
      assert Join(parts, sep) == [sep] + tail;
      assert ([sep] + tail)[1..] == tail;
      SplitJoin(parts[1..], sep);
      assert parts == [""] + parts[1..];
    } else {
      var shorter := [p[1..]] + parts[1..];
      assert shorter[1..] == parts[1..];
      SplitJoin(shorter, sep);
      assert Join(shorter, sep) == Join(parts, sep)[1..];
      assert Join(parts, sep)[0] == p[0];
      assert [p[0]] + p[1..] == p;
    }
  }

  /** A string without the separator splits into itself alone. */
  lemma {:induction false} SplitFree(s: string, sep: char)
    requires sep !in s
    ensures Split(s, sep) == [s]
    decreases |s|
  {
    if |s| > 0 {
      SplitFree(s[1..], sep);
      assert [s[0]] + s[1..] == s;
    }
  }

  /** A character missing from a join is missing from every piece. */
  lemma {:induction false} JoinExcludes(parts: seq<string>, sep: char, c: char)
    requires |parts| >= 1
    requires c !in Join(parts, sep)
    ensures forall i :: 0 <= i < |parts| ==> c !in parts[i]
    decreases |parts|
  {
    if |parts| > 1 {
      assert Join(parts, sep) == parts[0] + ([sep] + Join(parts[1..], sep));
      JoinExcludes(parts[1..], sep, c);
      forall i | 1 <= i < |parts|
        ensures c !in parts[i]
      {
        assert parts[i] == parts[1..][i - 1];
      }
    }
  }

  /** The replacement `html.EscapeString` uses for one character. */
  function EscapeChar(c: char): string {
    match c
    case '<' => "&lt;"
    case '>' => "&gt;"
    case '&' => "&amp;"
    case '\'' => "&#39;"
    case '"' => "&#34;"
    case _ => [c]
  }

  /** Characters that would end or open markup inside a quoted attribute. */
  predicate IsMarkup(c: char) {
    c == '<' || c == '>' || c == '\'' || c == '"'
  }

  /** `html.EscapeString`: `<`, `>`, `&`, `'` and `"` become entities, every
      other character is kept. The result can sit inside a quoted attribute
      without closing it. */
  function Escape(s: string): (r: string)
    ensures forall i :: 0 <= i < |r| ==> !IsMarkup(r[i])
    ensures |r| >= |s|
    ensures (forall i :: 0 <= i < |s| ==> !IsMarkup(s[i]) && s[i] != '&') ==> r == s
    decreases |s|
  {
    if s == [] then [] else EscapeChar(s[0]) + Escape(s[1..])
  }

  /** Undoes the five entities `Escape` produces; any other text is kept. */
  function Unescape(s: string): string
    decreases |s|
  {
    if |s| == 0 then ""
    else if s[0] != '&' then [s[0]] + Unescape(s[1..])
    else if |s| >= 4 && s[..4] == "&lt;" then "<" + Unescape(s[4..])
    else if |s| >= 4 && s[..4] == "&gt;" then ">" + Unescape(s[4..])
    else if |s| >= 5 && s[..5] == "&amp;" then "&" + Unescape(s[5..])
    else if |s| >= 5 && s[..5] == "&#39;" then "'" + Unescape(s[5..])
    else if |s| >= 5 && s[..5] == "&#34;" then "\"" + Unescape(s[5..])
    else "&" + Unescape(s[1..])
  }

  /** Escaping loses nothing: the escaped text decodes to the original. */
  lemma {:induction false} UnescapeEscape(s: string)
    ensures Unescape(Escape(s)) == s
    decreases |s|
  {
    if s != [] {
      UnescapeEscape(s[1..]);
      UnescapeChar(s[0], Escape(s[1..]));
      assert [s[0]] + s[1..] == s;
    }
  }

  /** One escaped character in front of any text decodes to that character. */
  lemma UnescapeChar(c: char, rest: string)
    ensures Unescape(EscapeChar(c) + rest) == [c] + Unescape(rest)
  {
    var t := EscapeChar(c) + rest;
    match c
    case '<' =>
      assert t[..4] == "&lt;" && t[4..] == rest;
    case '>' =>
      assert t[..4] == "&gt;" && t[4..] == rest;
    case '&' =>
      assert t[..4] == "&amp" && t[..5] == "&amp;" && t[5..] == rest;
    case '\'' =>
      assert t[..4] == "&#39" && t[..5] == "&#39;" && t[5..] == rest;
    case '"' =>
      assert t[..4] == "&#34" && t[..5] == "&#34;" && t[5..] == rest;
    case _ =>
      assert EscapeChar(c) == [c];
      assert t[0] == c && t[1..] == rest;
  }

  /** The text before the first `'`: the value of a single-quoted attribute
      whose opening quote has just been read. */
  function UpToQuote(s: string): (r: string)
    ensures '\'' !in r
    decreases |s|
  {
    if s == [] || s[0] == '\'' then "" else [s[0]] + UpToQuote(s[1..])
  }

  /** An escaped value placed in a single-quoted attribute reads back as the
      original value, whatever follows the closing quote. */
  lemma {:induction false} QuotedReadsBack(v: string, rest: string)
    ensures Unescape(UpToQuote(Escape(v) + "'" + rest)) == v
  {
    QuotedPrefix(Escape(v), rest);
    UnescapeEscape(v);
  }

  lemma {:induction false} QuotedPrefix(e: string, rest: string)
    requires forall i :: 0 <= i < |e| ==> !IsMarkup(e[i])
    ensures UpToQuote(e + "'" + rest) == e
    decreases |e|
  {
    if e != [] {
      QuotedPrefix(e[1..], rest);
      assert (e + "'" + rest)[1..] == e[1..] + "'" + rest;
      assert [e[0]] + e[1..] == e;
    }
  }

  predicate IsAsciiLetter(c: char) {
    'A' <= c <= 'Z' || 'a' <= c <= 'z'
  }

  /** The key pattern `^[A-Za-z]*$`: ASCII letters only. */
  predicate IsLetters(s: string) {
    forall i :: 0 <= i < |s| ==> IsAsciiLetter(s[i])
  }
}
