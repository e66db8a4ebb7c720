/**
 * The behaviour of the Java string operations the launcher relies on, written out:
 * `startsWith`, `contains`, `trim`, `replace`, `split` on a one-character pattern,
 * `String.join`, `toLowerCase`, `compareTo` and the default `java.util.Scanner` tokens.
 */
module JavaStrings {

  // ---------------------------------------------------------------- prefixes and substrings

  /** `s.startsWith(p)` */
  predicate StartsWith(s: string, p: string) {
    |p| <= |s| && s[..|p|] == p
  }

  /** `s.contains(t)`: `t` occurs at some position of `s` (the empty string occurs everywhere). */
  predicate Contains(s: string, t: string)
    decreases |s|
  {
    StartsWith(s, t) || (|s| > 0 && Contains(s[1..], t))
  }

  lemma {:induction false} ContainsLength(s: string, t: string)
    requires Contains(s, t)
    ensures |t| <= |s|
    decreases |s|
  {
    if !StartsWith(s, t) {
      ContainsLength(s[1..], t);
    }
  }

  /** A string contains each of its suffixes. */
  lemma {:induction false} ContainsSuffix(a: string, w: string)
    ensures Contains(a + w, w)
    decreases |a|
  {
    if a == [] {
      assert a + w == w;
    } else {
      assert (a + w)[1..] == a[1..] + w;
      ContainsSuffix(a[1..], w);
    }
  }

  /** A string contains each of its prefixes. */
  lemma ContainsPrefix(w: string, b: string)
    ensures Contains(w + b, w)
  {
    assert (w + b)[..|w|] == w;
  }

  /** Whatever a string contains, the same string with more text in front contains too. */
  lemma {:induction false} ContainsExtendLeft(a: string, s: string, w: string)
    requires Contains(s, w)
    ensures Contains(a + s, w)
    decreases |a|
  {
    if a != [] {
      ContainsExtendLeft(a[1..], s, w);
      assert (a + s)[1..] == a[1..] + s;
    } else {
      assert a + s == s;
    }
  }

  /** Whatever a string contains, the same string with more text behind contains too. */
  lemma {:induction false} ContainsExtendRight(s: string, b: string, w: string)
    requires Contains(s, w)
    ensures Contains(s + b, w)
    decreases |s|
  {
    if StartsWith(s, w) {
      assert (s + b)[..|w|] == s[..|w|];
    } else {
      ContainsExtendRight(s[1..], b, w);
      assert (s + b)[1..] == s[1..] + b;
    }
  }

  /** A string lacking one of the characters of `t` does not contain `t`. */
  lemma {:induction false} NotContainsMissingChar(s: string, t: string, c: char)
    requires c in t && c !in s
    ensures !Contains(s, t)
    decreases |s|
  {
    var k :| 0 <= k < |t| && t[k] == c;
    if |t| <= |s| {
      assert s[k] != c;
      assert s[..|t|][k] == s[k];
    }
    if |s| > 0 {
      NotContainsMissingChar(s[1..], t, c);
    }
  }

  /** A string contains the first character of everything it contains. */
  lemma {:induction false} ContainsFirstChar(s: string, t: string)
    requires Contains(s, t) && t != []
    ensures t[0] in s
    decreases |s|
  {
    if StartsWith(s, t) {
      assert s[0] == t[0];
    } else {
      ContainsFirstChar(s[1..], t);
      assert s[1..] == s[1..];
    }
  }

  // ---------------------------------------------------------------- trim

  /** A string with no leading and no trailing character at or below U+0020. */
  predicate IsTrimmed(s: string) {
    s == [] || (s[0] > ' ' && s[|s| - 1] > ' ')
  }

  /** The leading part of `String.trim`: drops every leading character at or below U+0020. */
  function TrimStart(s: string): (r: string)
    ensures |r| <= |s| && r == s[|s| - |r|..]
    ensures r == [] || r[0] > ' '
    ensures forall k :: 0 <= k < |s| - |r| ==> s[k] <= ' '
    decreases |s|
  {
    if |s| > 0 && s[0] <= ' ' then TrimStart(s[1..]) else s
  }

  /** The trailing part of `String.trim`: drops every trailing character at or below U+0020. */
  function TrimEnd(s: string): (r: string)
    ensures |r| <= |s| && r == s[..|r|]
    ensures r == [] || r[|r| - 1] > ' '
    ensures forall k :: |r| <= k < |s| ==> s[k] <= ' '
    decreases |s|
  {
    if |s| > 0 && s[|s| - 1] <= ' ' then TrimEnd(s[..|s| - 1]) else s
  }

  /** `s.trim()` */
  function Trim(s: string): (r: string)
    ensures IsTrimmed(r)
    ensures |r| <= |s|
  {
    var t := TrimStart(s);
    var r := TrimEnd(t);
    assert r != [] ==> r[0] == t[0];
    r
  }

  /** Trimming a trimmed string changes nothing, so `trim` is idempotent. */
  lemma TrimOfTrimmed(s: string)
    requires IsTrimmed(s)
    ensures Trim(s) == s
  {
  }

  /** Removing leading blanks keeps every infix that itself starts with a visible character. */
  lemma {:induction false} TrimStartKeeps(s: string, w: string)
    requires Contains(s, w) && w != [] && w[0] > ' '
    ensures Contains(TrimStart(s), w)
    decreases |s|
  {
    if |s| > 0 && s[0] <= ' ' {
      assert !StartsWith(s, w);
      TrimStartKeeps(s[1..], w);
    }
  }

  lemma {:induction false} DropLastKeeps(s: string, w: string)
    requires Contains(s, w) && w != [] && |s| > 0 && w[|w| - 1] != s[|s| - 1]
    ensures Contains(s[..|s| - 1], w)
    decreases |s|
  {
    if StartsWith(s, w) {
      assert s[..|s| - 1][..|w|] == s[..|w|];
    } else {
      ContainsLength(s[1..], w);
      DropLastKeeps(s[1..], w);
      assert s[..|s| - 1][1..] == s[1..][..|s| - 2];
    }
  }

  /** Removing trailing blanks keeps every infix that itself ends with a visible character. */
  lemma {:induction false} TrimEndKeeps(s: string, w: string)
    requires Contains(s, w) && w != [] && w[|w| - 1] > ' '
    ensures Contains(TrimEnd(s), w)
    decreases |s|
  {
    if |s| > 0 && s[|s| - 1] <= ' ' {
      DropLastKeeps(s, w);
      TrimEndKeeps(s[..|s| - 1], w);
    }
  }

  /** `trim` keeps every infix that starts and ends with a visible character. */
  lemma TrimKeeps(s: string, w: string)
    requires Contains(s, w) && w != [] && w[0] > ' ' && w[|w| - 1] > ' '
    ensures Contains(Trim(s), w)
  {
    TrimStartKeeps(s, w);
    TrimEndKeeps(TrimStart(s), w);
  }

  // ---------------------------------------------------------------- replace

  /** `s.replace(t, r)`: each occurrence of `t`, found left to right without overlap, becomes `r`. */
  function Replace(s: string, t: string, r: string): string
    requires t != []
    decreases |s|
  {
    if |s| < |t| then s
    else if StartsWith(s, t) then r + Replace(s[|t|..], t, r)
    else [s[0]] + Replace(s[1..], t, r)
  }

  /** With no occurrence of `t`, `replace` returns the string unchanged. */
  lemma {:induction false} ReplaceAbsent(s: string, t: string, r: string)
    requires t != [] && !Contains(s, t)
    ensures Replace(s, t, r) == s
    decreases |s|
  {
    if |s| >= |t| {
      ReplaceAbsent(s[1..], t, r);
      assert [s[0]] + s[1..] == s;
    }
  }

  /** With an occurrence of `t`, the replacement text appears in the result. */
  lemma {:induction false} ReplaceInserts(s: string, t: string, r: string)
    requires t != [] && Contains(s, t)
    ensures Contains(Replace(s, t, r), r)
    decreases |s|
  {
    ContainsLength(s, t);
    if StartsWith(s, t) {
      ContainsPrefix(r, Replace(s[|t|..], t, r));
    } else {
      ReplaceInserts(s[1..], t, r);
      ContainsExtendLeft([s[0]], Replace(s[1..], t, r), r);
    }
  }

  /** Before the single occurrence, no match starts at the first character. */
  lemma {:induction false} ReplaceSingleStep(a: string, t: string, b: string)
    requires t != [] && a != []
    requires !Contains(a + t[..|t| - 1], t)
    ensures !StartsWith(a + t + b, t)
    ensures !Contains(a[1..] + t[..|t| - 1], t)
    ensures (a + t + b)[1..] == a[1..] + t + b
  {
    var u := a + t[..|t| - 1];
    assert !StartsWith(u, t) && !Contains(u[1..], t);
    assert (a + t + b)[..|t|] == u[..|t|];
    assert u[1..] == a[1..] + t[..|t| - 1];
  }

  lemma {:induction false} ReplaceKeepsFirst(s: string, t: string, r: string)
    requires t != [] && |s| >= |t| && !StartsWith(s, t)
    ensures Replace(s, t, r) == [s[0]] + Replace(s[1..], t, r)
  {
  }

  lemma {:induction false} ConsAppend(a: string, r: string, b: string)
    requires a != []
    ensures [a[0]] + (a[1..] + r + b) == a + r + b
  {
    assert a == [a[0]] + a[1..];
  }

  /** An occurrence at the very start is replaced. */
  lemma {:induction false} ReplaceAtStart(t: string, b: string, r: string)
    requires t != [] && !Contains(b, t)
    ensures Replace(t + b, t, r) == r + b
  {
    var s := t + b;
    assert StartsWith(s, t);
    assert s[|t|..] == b;
    ReplaceAbsent(b, t, r);
  }

  /** A single occurrence of `t` is replaced in place, and nothing else changes. */
  lemma {:induction false} ReplaceSingle(a: string, t: string, b: string, r: string)
    requires t != []
    requires !Contains(a + t[..|t| - 1], t) && !Contains(b, t)
    ensures Replace(a + t + b, t, r) == a + r + b
    decreases |a|
  {
    var s := a + t + b;
    if a == [] {
      assert s == t + b && a + r + b == r + b;
      ReplaceAtStart(t, b, r);
    } else {
      ReplaceSingleStep(a, t, b);
      ReplaceKeepsFirst(s, t, r);
      ReplaceSingle(a[1..], t, b, r);
      assert s[0] == a[0];
      ConsAppend(a, r, b);
    }
  }

  // ---------------------------------------------------------------- split and join

  function IndexOf(s: string, c: char): (i: nat)
    requires c in s
    ensures i < |s| && s[i] == c && c !in s[..i]
  {
    if s[0] == c then 0 else 1 + IndexOf(s[1..], c)
  }

  lemma {:induction false} IndexOfAt(s: string, c: char, k: nat)
    requires k < |s| && s[k] == c && c !in s[..k]
    ensures IndexOf(s, c) == k
  {
    if k > 0 {
      assert s[0] in s[..k];
      assert s[1..][..k - 1] == s[..k][1..];
      IndexOfAt(s[1..], c, k - 1);
    }
  }

  /** `s.lastIndexOf(c)` where `c` occurs. */
  function LastIndexOf(s: string, c: char): (i: nat)
    requires c in s
    ensures i < |s| && s[i] == c && c !in s[i + 1..]
    decreases |s|
  {
    var init := s[..|s| - 1];
    assert s == init + [s[|s| - 1]];
    if s[|s| - 1] == c then |s| - 1
    else
      var i := LastIndexOf(init, c);
      assert s[i + 1..] == init[i + 1..] + [s[|s| - 1]];
      i
  }

  lemma LastIndexOfAt(s: string, c: char, k: nat)
    requires k < |s| && s[k] == c && c !in s[k + 1..]
    ensures LastIndexOf(s, c) == k
  {
    var i := LastIndexOf(s, c);
    assert forall j :: k < j < |s| ==> s[j] == s[k + 1..][j - k - 1];
    assert forall j :: i < j < |s| ==> s[j] == s[i + 1..][j - i - 1];
  }

  /** The pieces of `s` between occurrences of `sep`, empty ones included. */
  function Pieces(s: string, sep: char): (ps: seq<string>)
    ensures |ps| > 0
    ensures forall p :: p in ps ==> sep !in p
    decreases |s|
  {
    if sep !in s then [s]
    else
      var i := IndexOf(s, sep);
      [s[..i]] + Pieces(s[i + 1..], sep)
  }

  function DropTrailingEmpty(ps: seq<string>): (r: seq<string>)
    ensures |r| <= |ps| && r == ps[..|r|]
    ensures r == [] || r[|r| - 1] != ""
    ensures forall k :: |r| <= k < |ps| ==> ps[k] == ""
  {
    if ps != [] && ps[|ps| - 1] == "" then DropTrailingEmpty(ps[..|ps| - 1]) else ps
  }

  /**
   * `s.split(p)` where the pattern `p` matches exactly the character `sep`: without a match the
   * result is `[s]` (so `""` splits into `[""]`); otherwise it is the pieces between matches with
   * the trailing empty pieces removed (so `","` splits into no pieces at all).
   */
  function Split(s: string, sep: char): (r: seq<string>)
    ensures forall p :: p in r ==> sep !in p
  {
    if sep !in s then [s] else DropTrailingEmpty(Pieces(s, sep))
  }

  /** `String.join(sep, parts)` */
  function Join(sep: char, parts: seq<string>): string
  {
    if parts == [] then ""
    else if |parts| == 1 then parts[0]
    else parts[0] + [sep] + Join(sep, parts[1..])
  }

  /** Joining the pieces of a string with the separator gives the string back. */
  lemma {:induction false} JoinPieces(s: string, sep: char)
    ensures Join(sep, Pieces(s, sep)) == s
    decreases |s|
  {
    if sep in s {
      var i := IndexOf(s, sep);
      var rest := Pieces(s[i + 1..], sep);
      var ps := [s[..i]] + rest;
      assert Pieces(s, sep) == ps;
      assert ps[1..] == rest && |ps| > 1;
      JoinPieces(s[i + 1..], sep);
      assert Join(sep, ps) == s[..i] + [sep] + s[i + 1..];
      assert s == s[..i] + [sep] + s[i + 1..];
    }
  }

  /** Splitting a join of separator-free parts into pieces gives the parts back. */
  lemma {:induction false} PiecesJoin(sep: char, parts: seq<string>)
    requires parts != []
    requires forall p :: p in parts ==> sep !in p
    ensures Pieces(Join(sep, parts), sep) == parts
    decreases |parts|
  {
    if |parts| > 1 {
      var s := Join(sep, parts);
      var p0 := parts[0];
      assert parts[0] in parts;
      assert s == p0 + [sep] + Join(sep, parts[1..]);
      assert s[|p0|] == sep;
      assert s[..|p0|] == p0;
      IndexOfAt(s, sep, |p0|);
      var i := IndexOf(s, sep);
      assert s[..i] == p0;
      assert s[i + 1..] == Join(sep, parts[1..]);
      PiecesJoin(sep, parts[1..]);
    }
  }

  /** `split` undoes `String.join` on non-empty separator-free parts. */
  lemma SplitJoin(sep: char, parts: seq<string>)
    requires parts != []
    requires forall p :: p in parts ==> p != "" && sep !in p
    ensures Split(Join(sep, parts), sep) == parts
  {
    PiecesJoin(sep, parts);
    if |parts| > 1 {
      assert Join(sep, parts)[|parts[0]|] == sep;
      assert parts[|parts| - 1] in parts;
    }
  }

  /** The first piece survives `split` whenever it is not empty. */
  lemma SplitFirst(s: string, sep: char)
    requires sep in s && s[..IndexOf(s, sep)] != ""
    ensures Split(s, sep) != [] && Split(s, sep)[0] == s[..IndexOf(s, sep)]
  {
    var ps := Pieces(s, sep);
    var r := DropTrailingEmpty(ps);
    assert ps[0] == s[..IndexOf(s, sep)];
    assert ps[0] != "";
    assert |r| > 0;
  }

  // ---------------------------------------------------------------- case and order

  function ToLowerChar(c: char): char {
    if 'A' <= c <= 'Z' then (c as int + 32) as char else c
  }

  /** `s.toLowerCase()` on the ASCII letters. */
  function ToLower(s: string): (r: string)
    ensures |r| == |s|
    ensures forall i :: 0 <= i < |s| ==> r[i] == ToLowerChar(s[i])
  {
    seq(|s|, i requires 0 <= i < |s| => ToLowerChar(s[i]))
  }

  /** `a.compareTo(b) <= 0`: the first differing character decides, and a proper prefix comes first. */
  predicate LessEq(a: string, b: string)
    decreases |a|
  {
    a == [] || (b != [] && (a[0] < b[0] || (a[0] == b[0] && LessEq(a[1..], b[1..]))))
  }

  lemma LessEqTotal(a: string, b: string)
    ensures LessEq(a, b) || LessEq(b, a)
  {
  }

  lemma LessEqAntisymmetric(a: string, b: string)
    requires LessEq(a, b) && LessEq(b, a)
    ensures a == b
  {
  }

  lemma LessEqTransitive(a: string, b: string, c: string)
    requires LessEq(a, b) && LessEq(b, c)
    ensures LessEq(a, c)
  {
  }

  // ---------------------------------------------------------------- Scanner tokens

  /** `Character.isWhitespace`, the delimiter of a default `java.util.Scanner`. */
  predicate IsWhitespace(c: char) {
    c == ' ' || ('\t' <= c <= '\r') || ('\U{1C}' <= c <= '\U{1F}')
    || c == '\U{1680}' || ('\U{2000}' <= c <= '\U{2006}') || ('\U{2008}' <= c <= '\U{200A}')
    || c == '\U{2028}' || c == '\U{2029}' || c == '\U{205F}' || c == '\U{3000}'
  }

  /** What `Scanner.hasNext` skips before the next token. */
  function SkipWhitespace(s: string): (r: string)
    ensures |r| <= |s| && r == s[|s| - |r|..]
    ensures r == [] || !IsWhitespace(r[0])
    ensures forall k :: 0 <= k < |s| - |r| ==> IsWhitespace(s[k])
    decreases |s|
  {
    if |s| > 0 && IsWhitespace(s[0]) then SkipWhitespace(s[1..]) else s
  }

  /** The length of the token `Scanner.next` returns: the leading run of non-whitespace. */
  function WordLength(s: string): (n: nat)
    ensures n <= |s|
    ensures forall k :: 0 <= k < n ==> !IsWhitespace(s[k])
    ensures n < |s| ==> IsWhitespace(s[n])
    decreases |s|
  {
    if |s| > 0 && !IsWhitespace(s[0]) then 1 + WordLength(s[1..]) else 0
  }

  /** The tokens a default `Scanner` yields from `s`, in order. */
  function Tokens(s: string): seq<string>
    decreases |s|
  {
    var t := SkipWhitespace(s);
    if t == [] then []
    else
      var n := WordLength(t);
      [t[..n]] + Tokens(t[n..])
  }

  predicate IsToken(w: string) {
    w != [] && forall k :: 0 <= k < |w| ==> !IsWhitespace(w[k])
  }

  function Concat(ws: seq<string>): string {
    if ws == [] then "" else ws[0] + Concat(ws[1..])
  }

  /** The characters of `s` that are not whitespace, in order. */
  function NonWhitespace(s: string): string {
    if s == [] then ""
    else if IsWhitespace(s[0]) then NonWhitespace(s[1..])
    else [s[0]] + NonWhitespace(s[1..])
  }

  lemma {:induction false} NonWhitespaceOfBlank(s: string)
    requires forall k :: 0 <= k < |s| ==> IsWhitespace(s[k])
    ensures NonWhitespace(s) == ""
  {
    if s != [] {
      NonWhitespaceOfBlank(s[1..]);
    }
  }

  lemma {:induction false} NonWhitespaceAppend(a: string, b: string)
    ensures NonWhitespace(a + b) == NonWhitespace(a) + NonWhitespace(b)
  {
    if a == [] {
      assert a + b == b;
    } else {
      assert (a + b)[1..] == a[1..] + b;
      NonWhitespaceAppend(a[1..], b);
    }
  }

  lemma {:induction false} NonWhitespaceOfToken(w: string)
    requires forall k :: 0 <= k < |w| ==> !IsWhitespace(w[k])
    ensures NonWhitespace(w) == w
  {
    if w != [] {
      NonWhitespaceOfToken(w[1..]);
    }
  }

  /** No token is empty and none holds whitespace; quote characters are ordinary characters. */
  lemma {:induction false} TokensAreWords(s: string)
    ensures forall w :: w in Tokens(s) ==> IsToken(w)
    decreases |s|
  {
    if HasNext(s) {
      var (w, after) := Next(s);
      TokensAreWords(after);
      WordIsToken(s);
      assert forall v :: v in [w] + Tokens(after) ==> v == w || v in Tokens(after);
    }
  }

  lemma {:induction false} WordIsToken(s: string)
    requires HasNext(s)
    ensures IsToken(Next(s).0)
  {
    var t := SkipWhitespace(s);
    assert t != [];
    LeadingWordIsToken(t);
  }

  lemma {:induction false} LeadingWordIsToken(t: string)
    requires t != [] && !IsWhitespace(t[0])
    ensures IsToken(t[..WordLength(t)])
  {
    var n := WordLength(t);
    assert n > 0;
    forall k | 0 <= k < n ensures !IsWhitespace(t[..n][k]) {
      assert t[..n][k] == t[k];
    }
  }

  /** Together the tokens spell out every non-whitespace character of the input, in order. */
  lemma {:induction false} TokensSpellInput(s: string)
    ensures Concat(Tokens(s)) == NonWhitespace(s)
    decreases |s|
  {
    var t := SkipWhitespace(s);
    NonWhitespaceOfSkipped(s);
    if t != [] {
      TokensStep(s);
      var n := WordLength(t);
      TokensSpellInput(t[n..]);
      NonWhitespaceOfWord(t);
      ConcatCons(t[..n], Tokens(t[n..]));
    }
  }

  lemma {:induction false} NonWhitespaceOfSkipped(s: string)
    ensures NonWhitespace(s) == NonWhitespace(SkipWhitespace(s))
  {
    var t := SkipWhitespace(s);
    var lead := s[..|s| - |t|];
    assert s == lead + t;
    NonWhitespaceOfBlank(lead);
    NonWhitespaceAppend(lead, t);
  }

  lemma {:induction false} NonWhitespaceOfWord(t: string)
    ensures NonWhitespace(t) == t[..WordLength(t)] + NonWhitespace(t[WordLength(t)..])
  {
    var n := WordLength(t);
    assert t == t[..n] + t[n..];
    NonWhitespaceAppend(t[..n], t[n..]);
    NonWhitespaceOfToken(t[..n]);
  }

  lemma {:induction false} ConcatCons(w: string, rest: seq<string>)
    ensures Concat([w] + rest) == w + Concat(rest)
  {
    assert ([w] + rest)[1..] == rest;
  }

  /** Every character of `w` is whitespace. */
  predicate IsBlank(w: string) {
    forall k :: 0 <= k < |w| ==> IsWhitespace(w[k])
  }

  /** The whitespace runs a `Scanner` skips: before the first token, between tokens, after the last. */
  function Separators(s: string): (seps: seq<string>)
    ensures seps != []
    decreases |s|
  {
    var t := SkipWhitespace(s);
    var lead := s[..|s| - |t|];
    if t == [] then [lead]
    else
      var n := WordLength(t);
      [lead] + Separators(t[n..])
  }

  /** `seps[0] + words[0] + seps[1] + ... + words[|words| - 1] + seps[|words|]`. */
  function Interleave(seps: seq<string>, words: seq<string>): string
    requires |seps| == |words| + 1
    decreases |words|
  {
    if words == [] then seps[0] else seps[0] + words[0] + Interleave(seps[1..], words[1..])
  }

  /**
   * The tokens are the maximal whitespace-free runs: the input is the tokens interleaved with
   * whitespace runs, and any two consecutive tokens are separated by at least one whitespace
   * character.
   */
  lemma {:induction false} TokensAreMaximalRuns(s: string)
    ensures |Separators(s)| == |Tokens(s)| + 1
    ensures Interleave(Separators(s), Tokens(s)) == s
    ensures forall i :: 0 <= i < |Separators(s)| ==> IsBlank(Separators(s)[i])
    ensures forall i :: 0 < i < |Tokens(s)| ==> Separators(s)[i] != []
    decreases |s|
  {
    var t := SkipWhitespace(s);
    var lead := s[..|s| - |t|];
    LeadIsBlank(s);
    if t == [] {
      assert s == lead + t;
    } else {
      TokensStep(s);
      var n := WordLength(t);
      var after := t[n..];
      TokensAreMaximalRuns(after);
      var seps, words := Separators(after), Tokens(after);
      assert Separators(s) == [lead] + seps;
      assert Tokens(s) == [t[..n]] + words;
      InterleaveCons(lead, t[..n], seps, words);
      ThreeParts(s, |s| - |t|, n);
      if words != [] {
        SeparatorAfterWord(t);
      }
      SeparatorsCons(lead, seps, t[..n], words);
    }
  }

  lemma {:induction false} ThreeParts(s: string, k: nat, n: nat)
    requires k + n <= |s|
    ensures s == s[..k] + s[k..][..n] + s[k..][n..]
  {
    assert s[k..] == s[k..][..n] + s[k..][n..];
  }

  lemma {:induction false} SeparatorsCons(lead: string, seps: seq<string>, w: string, words: seq<string>)
    requires |seps| == |words| + 1 && IsBlank(lead)
    requires forall i :: 0 <= i < |seps| ==> IsBlank(seps[i])
    requires forall i :: 0 < i < |words| ==> seps[i] != []
    requires words != [] ==> seps[0] != []
    ensures forall i :: 0 <= i < |[lead] + seps| ==> IsBlank(([lead] + seps)[i])
    ensures forall i :: 0 < i < |[w] + words| ==> ([lead] + seps)[i] != []
  {
    forall i | 0 < i < |[lead] + seps| ensures ([lead] + seps)[i] == seps[i - 1] {}
  }

  lemma {:induction false} LeadIsBlank(s: string)
    ensures IsBlank(s[..|s| - |SkipWhitespace(s)|])
  {
    var lead := s[..|s| - |SkipWhitespace(s)|];
    forall k | 0 <= k < |lead| ensures IsWhitespace(lead[k]) {
      assert lead[k] == s[k];
    }
  }

  lemma {:induction false} InterleaveCons(sep: string, w: string, seps: seq<string>, words: seq<string>)
    requires |seps| == |words| + 1
    ensures Interleave([sep] + seps, [w] + words) == sep + w + Interleave(seps, words)
  {
    assert ([sep] + seps)[1..] == seps;
    assert ([w] + words)[1..] == words;
  }

  /** After a token, the next token (if any) is preceded by at least one whitespace character. */
  lemma {:induction false} SeparatorAfterWord(t: string)
    requires t != [] && !IsWhitespace(t[0])
    requires Tokens(t[WordLength(t)..]) != []
    ensures Separators(t[WordLength(t)..])[0] != []
  {
    var after := t[WordLength(t)..];
    assert after != [];
    assert IsWhitespace(after[0]);
    assert |SkipWhitespace(after)| <= |after[1..]|;
  }

  /** A string yields no token exactly when it is all whitespace. */
  lemma TokensEmptyIff(s: string)
    ensures Tokens(s) == [] <==> forall k :: 0 <= k < |s| ==> IsWhitespace(s[k])
  {
    var t := SkipWhitespace(s);
    if t != [] {
      assert s[|s| - |t|] == t[0];
    }
  }

  /** A single whitespace-free word, with blanks around it, is one token. */
  lemma {:induction false} TokensOfWord(a: string, w: string, b: string)
    requires IsToken(w)
    requires forall k :: 0 <= k < |a| ==> IsWhitespace(a[k])
    requires forall k :: 0 <= k < |b| ==> IsWhitespace(b[k])
    ensures Tokens(a + w + b) == [w]
    decreases |a|
  {
    var s := a + w + b;
    if a != [] {
      assert s[1..] == a[1..] + w + b;
      TokensOfWord(a[1..], w, b);
    } else {
      assert s == w + b;
      assert SkipWhitespace(s) == s;
      WordLengthOfWord(w, b);
      assert s[|w|..] == b;
      TokensEmptyIff(b);
    }
  }

  lemma {:induction false} WordLengthOfWord(w: string, b: string)
    requires forall k :: 0 <= k < |w| ==> !IsWhitespace(w[k])
    requires b == [] || IsWhitespace(b[0])
    ensures WordLength(w + b) == |w|
    decreases |w|
  {
    if w != [] {
      assert (w + b)[1..] == w[1..] + b;
      WordLengthOfWord(w[1..], b);
    } else {
      assert w + b == b;
    }
  }
  /** A whitespace-free word followed by whitespace (or nothing) is the first token. */
  lemma TokensOfLeadingWord(w: string, rest: string)
    requires IsToken(w)
    requires rest == [] || IsWhitespace(rest[0])
    ensures Tokens(w + rest) == [w] + Tokens(rest)
  {
    var s := w + rest;
    assert SkipWhitespace(s) == s;
    WordLengthOfWord(w, rest);
    assert s[..|w|] == w && s[|w|..] == rest;
  }
  /** One `Scanner.next` step: a non-empty token is taken and the rest is shorter. */
  lemma TokensStep(s: string)
    requires SkipWhitespace(s) != []
    ensures var t := SkipWhitespace(s); var n := WordLength(t);
      && 0 < n && |t[n..]| < |s|
      && Tokens(s) == [t[..n]] + Tokens(t[n..])
  {
    var t := SkipWhitespace(s);
    assert !IsWhitespace(t[0]);
  }
  /** A whitespace-free word is its own single token. */
  lemma TokensOfSingleWord(w: string)
    requires IsToken(w)
    ensures Tokens(w) == [w]
  {
    assert SkipWhitespace(w) == w;
    WordLengthOfWord(w, []);
    assert w + [] == w;
  }

  /** `Scanner.hasNext`: another token remains. */
  predicate HasNext(s: string) {
    Tokens(s) != []
  }

  /** `Scanner.next`: the next token and the text after it. */
  function Next(s: string): (r: (string, string))
    requires HasNext(s)
    ensures Tokens(s) == [r.0] + Tokens(r.1)
    ensures |r.1| < |s|
  {
    var t := SkipWhitespace(s);
    var n := WordLength(t);
    TokensStep(s);
    (t[..n], t[n..])
  }

  lemma AppendAssoc<T>(a: seq<T>, x: T, b: seq<T>)
    ensures a + [x] + b == a + ([x] + b)
  {
  }

  lemma ConcatAssoc<T>(a: seq<T>, b: seq<T>, c: seq<T>)
    ensures a + b + c == a + (b + c)
  {
  }
}
