/** Bytes of an input line, the byte constants the tokenizers compare against,
    and the string helpers the shell uses on tokens (`trim`, `join`). */
module Bytes {

  /** One byte of the UTF-8 encoding of a line. A byte is represented by the
      character with the same code point, so ASCII literals read naturally. */
  type byte = c: char | c as int < 256

  type Bytes = seq<byte>

  const SINGLE_QUOTE: byte := '\''
  const DOUBLE_QUOTE: byte := '"'
  const WHITESPACE: byte := ' '
  const BACKSLASH: byte := '\\'
  const GRAVE: byte := '`'
  const DOLLAR_SIGN: byte := '$'
  const REDIRECT: byte := '>'

  /** `input.bytes().all(|b| b == b' ')`: true of the empty line too */
  predicate AllSpace(s: Bytes) {
    forall i | 0 <= i < |s| :: s[i] == WHITESPACE
  }

  /** No byte of `s` is the space byte. */
  predicate NoSpace(s: Bytes) {
    forall i | 0 <= i < |s| :: s[i] != WHITESPACE
  }

  /** The number of bytes in all of `ws` together. */
  function TotalLength(ws: seq<Bytes>): nat {
    if ws == [] then 0 else |ws[0]| + TotalLength(ws[1..])
  }

  /** `ws.join(" ")`: the words with one space between each two of them and
      none at either end, so one byte more than the words per gap. */
  function Join(ws: seq<Bytes>): (r: Bytes)
    ensures ws == [] ==> r == []
    ensures |ws| == 1 ==> r == ws[0]
    ensures ws != [] ==> |r| == |ws| - 1 + TotalLength(ws)
  {
    if ws == [] then []
    else if |ws| == 1 then
      assert TotalLength(ws) == |ws[0]| + TotalLength(ws[1..]);
      ws[0]
    else ws[0] + [WHITESPACE] + Join(ws[1..])
  }

  /** Joining one more word adds a single space and that word at the end. */
  lemma {:induction false} JoinAppend(ws: seq<Bytes>, w: Bytes)
    requires ws != []
    ensures Join(ws + [w]) == Join(ws) + [WHITESPACE] + w
  {
    var v := ws + [w];
    assert v[0] == ws[0];
    if |ws| == 1 {
      assert v[1..] == [w];
    } else {
      assert v[1..] == ws[1..] + [w];
      JoinAppend(ws[1..], w);
      assert Join(v) == ws[0] + [WHITESPACE] + (Join(ws[1..]) + [WHITESPACE] + w);
    }
  }

  /** The words of `word + s`, where `word` is the word being read so far:
      the maximal runs of non-space bytes, in order. */
  function WordsAfter(word: Bytes, s: Bytes): (r: seq<Bytes>)
    decreases |s|
  {
    if s == [] then (if word == [] then [] else [word])
    else if s[0] == WHITESPACE then (if word == [] then [] else [word]) + WordsAfter([], s[1..])
    else WordsAfter(word + [s[0]], s[1..])
  }

  /** Splitting a line on spaces, dropping empty pieces: the reference the
      tokenizers are compared with on lines that use no quoting. */
  function Words(s: Bytes): seq<Bytes> {
    WordsAfter([], s)
  }

  lemma {:induction false} WordsAfterShape(word: Bytes, s: Bytes)
    requires NoSpace(word)
    ensures forall i | 0 <= i < |WordsAfter(word, s)| ::
      WordsAfter(word, s)[i] != [] && NoSpace(WordsAfter(word, s)[i])
    decreases |s|
  {
    if s == [] {
    } else if s[0] == WHITESPACE {
      WordsAfterShape([], s[1..]);
    } else {
      WordsAfterShape(word + [s[0]], s[1..]);
    }
  }

  /** Every word is non-empty and holds no space. */
  lemma WordsShape(s: Bytes)
    ensures forall i | 0 <= i < |Words(s)| :: Words(s)[i] != [] && NoSpace(Words(s)[i])
  {
    WordsAfterShape([], s);
  }

  lemma {:induction false} WordsAfterRun(word: Bytes, w: Bytes, t: Bytes)
    requires NoSpace(w)
    ensures WordsAfter(word, w + t) == WordsAfter(word + w, t)
    decreases |w|
  {
    if w == [] {
      assert w + t == t;
      assert word + w == word;
    } else {
      assert (w + t)[0] == w[0];
      assert (w + t)[1..] == w[1..] + t;
      WordsAfterRun(word + [w[0]], w[1..], t);
      assert word + [w[0]] + w[1..] == word + w;
    }
  }

  /** Splitting a joined list of words gives the words back: `echo`'s output
      line, split on spaces, is its argument list again. */
  lemma {:induction false} WordsOfJoin(ws: seq<Bytes>)
    requires forall i | 0 <= i < |ws| :: ws[i] != [] && NoSpace(ws[i])
    ensures Words(Join(ws)) == ws
  {
    if ws == [] {
    } else if |ws| == 1 {
      WordsAfterRun([], ws[0], []);
      assert ws[0] + [] == ws[0];
      assert [] + ws[0] == ws[0];
    } else {
      var rest := Join(ws[1..]);
      assert Join(ws) == ws[0] + ([WHITESPACE] + rest);
      WordsAfterRun([], ws[0], [WHITESPACE] + rest);
      assert [] + ws[0] == ws[0];
      assert ([WHITESPACE] + rest)[1..] == rest;
      WordsOfJoin(ws[1..]);
      assert ws == [ws[0]] + ws[1..];
    }
  }

  // ---------------------------------------------------------------------
  // `str::trim`: strips leading and trailing characters with the Unicode
  // White_Space property, looked for here in their UTF-8 encodings.
  // ---------------------------------------------------------------------

  /** The UTF-8 encodings of the Unicode White_Space characters: U+0009..U+000D
      and U+0020 (one byte), U+0085 and U+00A0 (two bytes), U+1680,
      U+2000..U+200A, U+2028, U+2029, U+202F, U+205F and U+3000 (three bytes). */
  predicate IsWhitespace1(a: byte) {
    a == WHITESPACE || '\U{09}' <= a <= '\U{0D}'
  }

  predicate IsWhitespace2(a: byte, b: byte) {
    a == '\U{C2}' && (b == '\U{85}' || b == '\U{A0}')
  }

  predicate IsWhitespace3(a: byte, b: byte, c: byte) {
    || (a == '\U{E1}' && b == '\U{9A}' && c == '\U{80}')
    || (a == '\U{E2}' && b == '\U{80}'
        && ('\U{80}' <= c <= '\U{8A}' || c == '\U{A8}' || c == '\U{A9}' || c == '\U{AF}'))
    || (a == '\U{E2}' && b == '\U{81}' && c == '\U{9F}')
    || (a == '\U{E3}' && b == '\U{80}' && c == '\U{80}')
  }

  /** The width (1 to 3) of the whitespace character `s` starts with, or 0. */
  function LeadingWhitespace(s: Bytes): (n: nat)
    ensures n <= |s|
  {
    if |s| >= 1 && IsWhitespace1(s[0]) then 1
    else if |s| >= 2 && IsWhitespace2(s[0], s[1]) then 2
    else if |s| >= 3 && IsWhitespace3(s[0], s[1], s[2]) then 3
    else 0
  }

  /** The width (1 to 3) of the whitespace character `s` ends with, or 0. */
  function TrailingWhitespace(s: Bytes): (n: nat)
    ensures n <= |s|
  {
    var k := |s|;
    if k >= 1 && IsWhitespace1(s[k - 1]) then 1
    else if k >= 2 && IsWhitespace2(s[k - 2], s[k - 1]) then 2
    else if k >= 3 && IsWhitespace3(s[k - 3], s[k - 2], s[k - 1]) then 3
    else 0
  }

  predicate StartsWithWhitespace(s: Bytes) {
    LeadingWhitespace(s) > 0
  }

  predicate EndsWithWhitespace(s: Bytes) {
    TrailingWhitespace(s) > 0
  }

  /** `p` is a sequence of whitespace encodings: peeling whitespace
      characters off its front leaves nothing. */
  predicate WhitespaceRun(p: Bytes)
    decreases |p|
  {
    p == [] || (StartsWithWhitespace(p) && WhitespaceRun(p[LeadingWhitespace(p)..]))
  }

  /** Whether a line starts with whitespace, and how wide that character is,
      depends only on its first bytes. */
  lemma LeadingOfPrefix(s: Bytes, k: nat)
    requires LeadingWhitespace(s) <= k <= |s|
    ensures LeadingWhitespace(s[..k]) == LeadingWhitespace(s)
  {
  }

  lemma LeadingOfExtension(p: Bytes, q: Bytes)
    requires StartsWithWhitespace(p)
    ensures LeadingWhitespace(p + q) == LeadingWhitespace(p)
  {
    LeadingOfPrefix(p + q, |p|);
    assert (p + q)[..|p|] == p;
  }

  /** Whether a line ends with whitespace, and how wide that character is,
      depends only on its last bytes. */
  lemma TrailingOfSuffix(s: Bytes, k: nat)
    requires TrailingWhitespace(s) <= |s| - k && k <= |s|
    ensures TrailingWhitespace(s[k..]) == TrailingWhitespace(s)
  {
    var t := s[k..];
    if |t| >= 1 { assert t[|t| - 1] == s[|s| - 1]; }
    if |t| >= 2 { assert t[|t| - 2] == s[|s| - 2]; }
    if |t| >= 3 { assert t[|t| - 3] == s[|s| - 3]; }
  }

  /** The bytes of the whitespace character a line ends with, read from the
      front, are that one character. */
  lemma TrailingIsOneCharacter(s: Bytes)
    requires EndsWithWhitespace(s)
    ensures var c := s[|s| - TrailingWhitespace(s)..]; LeadingWhitespace(c) == |c|
  {
    var c := s[|s| - TrailingWhitespace(s)..];
    assert forall j | 0 <= j < |c| :: c[j] == s[|s| - |c| + j];
  }

  /** A whitespace character followed by a whitespace run is a run. */
  lemma RunOfPrefix(s: Bytes, k: nat)
    requires 0 < LeadingWhitespace(s) <= k <= |s|
    requires WhitespaceRun(s[LeadingWhitespace(s)..k])
    ensures WhitespaceRun(s[..k])
  {
    var p := s[..k];
    LeadingOfPrefix(s, k);
    assert p[LeadingWhitespace(p)..] == s[LeadingWhitespace(s)..k];
  }

  /** A whitespace run followed by one whitespace character is a run. */
  lemma {:induction false} RunAppend(p: Bytes, c: Bytes)
    requires WhitespaceRun(p) && 0 < |c| == LeadingWhitespace(c)
    ensures WhitespaceRun(p + c)
    decreases |p|
  {
    if p == [] {
      assert p + c == c && c[|c|..] == [];
    } else {
      var n := LeadingWhitespace(p);
      LeadingOfExtension(p, c);
      assert (p + c)[n..] == p[n..] + c;
      RunAppend(p[n..], c);
    }
  }

  /** The length of the whitespace run `s` starts with: peeling whitespace
      characters off the front until none is left. */
  function LeadingRun(s: Bytes): (k: nat)
    ensures k <= |s| && WhitespaceRun(s[..k]) && !StartsWithWhitespace(s[k..])
    decreases |s|
  {
    var n := LeadingWhitespace(s);
    if n == 0 then
      assert s[..0] == [] && s[0..] == s;
      0
    else
      var t := s[n..];
      var k := LeadingRun(t);
      assert s[n..n + k] == t[..k] && s[n + k..] == t[k..];
      RunOfPrefix(s, n + k);
      n + k
  }

  /** The length of the whitespace run `s` ends with: peeling whitespace
      characters off the back until none is left. */
  function TrailingRun(s: Bytes): (k: nat)
    ensures k <= |s| && WhitespaceRun(s[|s| - k..]) && !EndsWithWhitespace(s[..|s| - k])
    decreases |s|
  {
    var n := TrailingWhitespace(s);
    if n == 0 then
      assert s[|s|..] == [] && s[..|s|] == s;
      0
    else
      var t := s[..|s| - n];
      var k := TrailingRun(t);
      assert s[|s| - n - k..] == t[|t| - k..] + s[|s| - n..] && s[..|s| - n - k] == t[..|t| - k];
      TrailingIsOneCharacter(s);
      RunAppend(t[|t| - k..], s[|s| - n..]);
      n + k
  }

  /** `str::trim_start`: `s` is a run of whitespace followed by the result,
      which does not start with whitespace. */
  function TrimStart(s: Bytes): (r: Bytes)
    ensures |r| <= |s| && r == s[|s| - |r|..]
    ensures WhitespaceRun(s[..|s| - |r|])
    ensures !StartsWithWhitespace(r)
  {
    s[LeadingRun(s)..]
  }

  /** `str::trim_end`: `s` is the result followed by a run of whitespace, and
      the result does not end with whitespace. */
  function TrimEnd(s: Bytes): (r: Bytes)
    ensures |r| <= |s| && r == s[..|r|]
    ensures WhitespaceRun(s[|r|..])
    ensures !EndsWithWhitespace(r)
  {
    s[..|s| - TrailingRun(s)]
  }

  /** A suffix of the suffix of `s` from `i` is a suffix of `s`. */
  lemma SuffixOfSuffix(s: Bytes, i: nat, j: nat)
    requires i + j <= |s|
    ensures s[i..][j..] == s[i + j..] && s[i..][..j] == s[i..i + j]
  {
  }

  /** `s` is a whitespace run, then `r` starting at index `i`, then another
      whitespace run. */
  predicate Framed(s: Bytes, i: int, r: Bytes) {
    && 0 <= i && i + |r| <= |s|
    && s[..i] + r + s[i + |r|..] == s
    && WhitespaceRun(s[..i]) && WhitespaceRun(s[i + |r|..])
  }

  /** Trimming the front and then the back of `s` leaves a slice of `s`
      between two whitespace runs. */
  lemma TrimParts(s: Bytes, a: Bytes, r: Bytes)
    requires |a| <= |s| && a == s[|s| - |a|..] && WhitespaceRun(s[..|s| - |a|]) && !StartsWithWhitespace(a)
    requires |r| <= |a| && r == a[..|r|] && WhitespaceRun(a[|r|..])
    ensures !StartsWithWhitespace(r)
    ensures Framed(s, |s| - |a|, r)
  {
    var i := |s| - |a|;
    LeadingOfPrefix(a, |r|);
    SuffixOfSuffix(s, i, |r|);
    assert s[..i] + r + s[i + |r|..] == s;
  }

  /** Neither trim touches a line with no whitespace at either end. */
  lemma TrimUntouched(s: Bytes)
    requires !StartsWithWhitespace(s) && !EndsWithWhitespace(s)
    ensures TrimStart(s) == s && TrimEnd(s) == s
  {
    assert LeadingRun(s) == 0 && TrailingRun(s) == 0;
  }

  /** `str::trim`: `s` is the whitespace `TrimStart` removes, the result, and
      another run of whitespace; the result neither starts nor ends with
      whitespace, and it is `s` itself when `s` has none at either end. */
  function Trim(s: Bytes): (r: Bytes)
    ensures Framed(s, |s| - |TrimStart(s)|, r)
    ensures !StartsWithWhitespace(r) && !EndsWithWhitespace(r)
    ensures !StartsWithWhitespace(s) && !EndsWithWhitespace(s) ==> r == s
  {
    var a := TrimStart(s);
    TrimParts(s, a, TrimEnd(a));
    if !StartsWithWhitespace(s) && !EndsWithWhitespace(s) then
      TrimUntouched(s);
      TrimEnd(a)
    else
      TrimEnd(a)
  }

  // ---------------------------------------------------------------------
  lemma JoinStart(ws: seq<Bytes>)
    requires ws != [] && ws[0] != []
    ensures Join(ws) != [] && Join(ws)[0] == ws[0][0]
  {
  }

  // What a double-quoted run means
  // ---------------------------------------------------------------------

  /** `q` can stand between an opening and a closing double quote: each
      backslash has a byte after it, and every `"` in `q` follows a backslash. */
  predicate DoubleQuotedBody(q: Bytes)
    decreases |q|
  {
    if q == [] then true
    else if q[0] == BACKSLASH then |q| >= 2 && DoubleQuotedBody(q[2..])
    else q[0] != DOUBLE_QUOTE && DoubleQuotedBody(q[1..])
  }

  /** What a backslash followed by `c` stands for inside double quotes. */
  function EscapedPiece(c: byte, specials: seq<byte>): Bytes {
    if c in specials then [c] else [BACKSLASH, c]
  }

  /** The bytes a double-quoted run `q` stands for: a backslash before a byte
      of `specials` is dropped and that byte kept; a backslash before any
      other byte is kept together with it; every other byte is kept. */
  function Unescape(q: Bytes, specials: seq<byte>): Bytes
    requires DoubleQuotedBody(q)
    decreases |q|
  {
    if q == [] then []
    else if q[0] == BACKSLASH then
      EscapedPiece(q[1], specials) + Unescape(q[2..], specials)
    else [q[0]] + Unescape(q[1..], specials)
  }

  /** What a double-quoted run stands for is never longer than the run and
      at least half as long, and a run without backslashes stands for
      itself. */
  lemma {:induction false} UnescapeLength(q: Bytes, specials: seq<byte>)
    requires DoubleQuotedBody(q)
    ensures |Unescape(q, specials)| <= |q| <= 2 * |Unescape(q, specials)|
    ensures BACKSLASH !in q ==> Unescape(q, specials) == q
    decreases |q|
  {
    if q != [] {
      if q[0] == BACKSLASH {
        UnescapeLength(q[2..], specials);
      } else {
        UnescapeLength(q[1..], specials);
        assert BACKSLASH !in q ==> BACKSLASH !in q[1..];
        assert q == [q[0]] + q[1..];
      }
    }
  }

  /** A byte other than a backslash or a double quote stands for itself. */
  lemma UnescapeByte(c: byte, rest: Bytes, specials: seq<byte>)
    requires c != BACKSLASH && c != DOUBLE_QUOTE && DoubleQuotedBody(rest)
    ensures DoubleQuotedBody([c] + rest)
    ensures Unescape([c] + rest, specials) == [c] + Unescape(rest, specials)
  {
    var q := [c] + rest;
    assert q[0] == c && q[1..] == rest;
  }

  /** A backslash and the byte after it stand for `EscapedPiece`. */
  lemma UnescapeEscape(c: byte, rest: Bytes, specials: seq<byte>)
    requires DoubleQuotedBody(rest)
    ensures DoubleQuotedBody([BACKSLASH, c] + rest)
    ensures Unescape([BACKSLASH, c] + rest, specials) == EscapedPiece(c, specials) + Unescape(rest, specials)
  {
    var q := [BACKSLASH, c] + rest;
    assert q[0] == BACKSLASH && q[1] == c && q[2..] == rest;
  }

  /** A run with no backslash and no double quote stands for itself, in
      front of whatever follows it. */
  lemma {:induction false} UnescapePlain(a: Bytes, rest: Bytes, specials: seq<byte>)
    requires BACKSLASH !in a && DOUBLE_QUOTE !in a && DoubleQuotedBody(rest)
    ensures DoubleQuotedBody(a + rest)
    ensures Unescape(a + rest, specials) == a + Unescape(rest, specials)
    decreases |a|
  {
    if a == [] {
      assert a + rest == rest;
    } else {
      assert BACKSLASH !in a[1..] && DOUBLE_QUOTE !in a[1..];
      UnescapePlain(a[1..], rest, specials);
      UnescapeByte(a[0], a[1..] + rest, specials);
      assert a + rest == [a[0]] + (a[1..] + rest);
      assert [a[0]] + (a[1..] + Unescape(rest, specials)) == a + Unescape(rest, specials);
    }
  }
}
