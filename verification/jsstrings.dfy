/** The part of JavaScript's string library that the secrets grammar relies on:
    `trim`, `split` on a character, `split(/\s+/)`, `indexOf`, `lastIndexOf`,
    `replace` of the first occurrence, and `toUpperCase` on ASCII letters.
    Strings are sequences of characters. */
module JsStrings {

  /** White space as ECMAScript defines it for both `String.prototype.trim` and
      the regular-expression class `\s`: the WhiteSpace code points (tab,
      vertical tab, form feed, space, no-break space, byte order mark and the
      Unicode space separators) and the LineTerminator code points. */
  predicate IsWhitespace(c: char)
    ensures IsWhitespace(c) ==> !IsWordOrHyphen(c) && c != ';' && c != '|'
  {
    || c == '\t' || c == '\n' || c == '\U{000B}' || c == '\U{000C}' || c == '\r'
    || c == ' ' || c == '\U{00A0}' || c == '\U{1680}'
    || ('\U{2000}' <= c <= '\U{200A}')
    || c == '\U{2028}' || c == '\U{2029}' || c == '\U{202F}' || c == '\U{205F}'
    || c == '\U{3000}' || c == '\U{FEFF}'
  }

  predicate AllWhitespace(s: string)
  {
    forall k :: 0 <= k < |s| ==> IsWhitespace(s[k])
  }

  predicate NoWhitespace(s: string)
  {
    forall k :: 0 <= k < |s| ==> !IsWhitespace(s[k])
  }

  /** A character of the regular-expression class `[\w-]`: an ASCII letter or
      digit, the underscore or the hyphen. */
  predicate IsWordOrHyphen(c: char)
  {
    ('A' <= c <= 'Z') || ('a' <= c <= 'z') || ('0' <= c <= '9') || c == '_' || c == '-'
  }

  predicate IsLowerAscii(c: char)
  {
    'a' <= c <= 'z'
  }

  // ---------------------------------------------------------------------------
  // Scanning for white space
  // ---------------------------------------------------------------------------

  /** The end of the run of white space that starts at position `i`: the first
      position at or after `i` that holds something else, or `|s|`. */
  function RunEnd(s: string, i: nat): (j: nat)
    requires i <= |s|
    ensures i <= j <= |s|
    ensures forall k :: i <= k < j ==> IsWhitespace(s[k])
    ensures j < |s| ==> !IsWhitespace(s[j])
    decreases |s| - i
  {
    if i == |s| || !IsWhitespace(s[i]) then i else RunEnd(s, i + 1)
  }

  /** The start of the run of white space that ends just before position `j`. */
  function RunStart(s: string, j: nat): (i: nat)
    requires j <= |s|
    ensures i <= j
    ensures forall k :: i <= k < j ==> IsWhitespace(s[k])
    ensures 0 < i ==> !IsWhitespace(s[i - 1])
  {
    if j == 0 || !IsWhitespace(s[j - 1]) then j else RunStart(s, j - 1)
  }

  /** The first position at or after `i` that holds white space, or `|s|`. */
  function NextWhitespace(s: string, i: nat): (j: nat)
    requires i <= |s|
    ensures i <= j <= |s|
    ensures forall k :: i <= k < j ==> !IsWhitespace(s[k])
    ensures j < |s| ==> IsWhitespace(s[j])
    decreases |s| - i
  {
    if i == |s| || IsWhitespace(s[i]) then i else NextWhitespace(s, i + 1)
  }

  /** A run of white space ends at the first position that is not white space. */
  lemma {:induction false} RunEndIs(s: string, i: nat, j: nat)
    requires i <= j <= |s|
    requires forall k :: i <= k < j ==> IsWhitespace(s[k])
    requires j < |s| ==> !IsWhitespace(s[j])
    ensures RunEnd(s, i) == j
    decreases j - i
  {
    if i < j {
      RunEndIs(s, i + 1, j);
    }
  }

  /** A run of white space read backwards starts just after the last position
      that is not white space. */
  lemma {:induction false} RunStartIs(s: string, i: nat, j: nat)
    requires i <= j <= |s|
    requires forall k :: i <= k < j ==> IsWhitespace(s[k])
    requires 0 < i ==> !IsWhitespace(s[i - 1])
    ensures RunStart(s, j) == i
    decreases j - i
  {
    if i < j {
      RunStartIs(s, i, j - 1);
    }
  }

  /** The first white space at or after `i` is the first one found. */
  lemma {:induction false} NextWhitespaceIs(s: string, i: nat, j: nat)
    requires i <= j <= |s|
    requires forall k :: i <= k < j ==> !IsWhitespace(s[k])
    requires j < |s| ==> IsWhitespace(s[j])
    ensures NextWhitespace(s, i) == j
    decreases j - i
  {
    if i < j {
      NextWhitespaceIs(s, i + 1, j);
    }
  }

  // ---------------------------------------------------------------------------
  // trim
  // ---------------------------------------------------------------------------

  /** `s.trim()`: `s` without its leading and trailing white space. */
  function Trim(s: string): (r: string)
    ensures |r| <= |s|
    ensures forall c :: c in r ==> c in s
    ensures r == [] <==> AllWhitespace(s)
    ensures r != [] ==> !IsWhitespace(r[0]) && !IsWhitespace(r[|r| - 1])
    ensures NoWhitespace(s) ==> r == s
  {
    var lo := RunEnd(s, 0);
    if lo == |s| then [] else s[lo..RunStart(s, |s|)]
  }

  /** Trim is determined by its result: whatever lies between white space on
      the left and white space on the right, and starts and ends with
      something else, is what trimming gives back. */
  lemma TrimUnique(a: string, m: string, b: string)
    requires AllWhitespace(a) && AllWhitespace(b)
    requires m == [] || (!IsWhitespace(m[0]) && !IsWhitespace(m[|m| - 1]))
    ensures Trim(a + m + b) == m
  {
    if m == [] {
      assert a + m + b == a + b;
      TrimBlank(a, b);
    } else {
      var s := a + m + b;
      var hi := |a| + |m|;
      assert forall k :: 0 <= k < |a| ==> s[k] == a[k];
      assert forall k :: hi <= k < |s| ==> s[k] == b[k - hi];
      assert s[|a|] == m[0];
      assert s[hi - 1] == m[|m| - 1];
      assert s[|a|..hi] == m;
      RunEndIs(s, 0, |a|);
      RunStartIs(s, hi, |s|);
    }
  }

  lemma TrimBlank(a: string, b: string)
    requires AllWhitespace(a) && AllWhitespace(b)
    ensures Trim(a + b) == []
  {
    var s := a + b;
    assert forall k :: 0 <= k < |s| ==> s[k] == if k < |a| then a[k] else b[k - |a|];
  }

  /** Trimming twice is trimming once. */
  lemma TrimIdempotent(s: string)
    ensures Trim(Trim(s)) == Trim(s)
  {
    TrimUnique([], Trim(s), []);
    assert [] + Trim(s) + [] == Trim(s);
  }

  /** A string that starts and ends with something other than white space
      is left as it is. */
  lemma TrimFixed(s: string)
    requires s == [] || (!IsWhitespace(s[0]) && !IsWhitespace(s[|s| - 1]))
    ensures Trim(s) == s
  {
    TrimUnique([], s, []);
    assert [] + s + [] == s;
  }

  // ---------------------------------------------------------------------------
  // indexOf, lastIndexOf and split on one character
  // ---------------------------------------------------------------------------

  /** `s.indexOf(c)`: the first position of `c` in `s`, or -1. */
  function IndexOf(s: string, c: char): (i: int)
    ensures -1 <= i < |s|
    ensures i == -1 <==> c !in s
    ensures 0 <= i ==> s[i] == c && c !in s[..i]
  {
    if s == [] then -1
    else if s[0] == c then 0
    else
      var j := IndexOf(s[1..], c);
      if j == -1 then -1
      else
        assert s[..j + 1] == [s[0]] + s[1..][..j];
        j + 1
  }

  /** `s.lastIndexOf(c)`: the last position of `c` in `s`, or -1. */
  function LastIndexOf(s: string, c: char): (i: int)
    ensures -1 <= i < |s|
    ensures i == -1 <==> c !in s
    ensures 0 <= i ==> s[i] == c && c !in s[i + 1..]
  {
    if s == [] then -1
    else if s[|s| - 1] == c then |s| - 1
    else
      var t := s[..|s| - 1];
      var j := LastIndexOf(t, c);
      assert s == t + [s[|s| - 1]];
      assert 0 <= j ==> s[j + 1..] == t[j + 1..] + [s[|s| - 1]];
      j
  }

  /** Any occurrence of `c` with none before it is the one `IndexOf` finds. */
  lemma {:induction false} IndexOfIs(s: string, c: char, i: nat)
    requires i < |s| && s[i] == c && c !in s[..i]
    ensures IndexOf(s, c) == i
  {
    if i > 0 {
      assert s[..i][0] == s[0];
      assert s[1..][..i - 1] == s[..i][1..];
      IndexOfIs(s[1..], c, i - 1);
    }
  }

  /** Any occurrence of `c` with none after it is the one `LastIndexOf` finds. */
  lemma {:induction false} LastIndexOfIs(s: string, c: char, i: nat)
    requires i < |s| && s[i] == c && c !in s[i + 1..]
    ensures LastIndexOf(s, c) == i
  {
    if i < |s| - 1 {
      var t := s[..|s| - 1];
      assert s[i + 1..][|s| - i - 2] == s[|s| - 1];
      assert t[i + 1..] == s[i + 1..][..|s| - i - 2];
      LastIndexOfIs(t, c, i);
    }
  }

  /** Cutting a concatenation inside its first part. */
  lemma CutInFirst<T>(x: seq<T>, y: seq<T>, i: nat)
    requires i < |x|
    ensures (x + y)[..i] == x[..i] && (x + y)[i + 1..] == x[i + 1..] + y
  {
  }

  /** A list that starts like another and goes on with that other's
      remainder followed by `tail` is the other followed by `tail`. */
  lemma AppendStep<T>(x: seq<T>, z: seq<T>, head: seq<T>, rest: seq<T>, restJoined: seq<T>, tail: seq<T>)
    requires x == head + rest && z == head + restJoined
    requires restJoined == rest + tail
    ensures z == x + tail
  {
    assert head + (rest + tail) == (head + rest) + tail;
  }

  /** `parts.join(sep)`. */
  function Join(parts: seq<string>, sep: char): string
  {
    if parts == [] then []
    else if |parts| == 1 then parts[0]
    else parts[0] + [sep] + Join(parts[1..], sep)
  }

  /** `s.split(sep)` for a one-character separator: the pieces between the
      separators, in order; empty pieces are kept. */
  function Split(s: string, sep: char): (parts: seq<string>)
    ensures |parts| >= 1
    ensures forall p :: p in parts ==> sep !in p
    decreases |s|
  {
    var i := IndexOf(s, sep);
    if i == -1 then [s] else [s[..i]] + Split(s[i + 1..], sep)
  }

  /** Joining the pieces with the separator gives back the string. */
  lemma {:induction false} JoinSplit(s: string, sep: char)
    ensures Join(Split(s, sep), sep) == s
    decreases |s|
  {
    var i := IndexOf(s, sep);
    if i != -1 {
      var rest := Split(s[i + 1..], sep);
      JoinSplit(s[i + 1..], sep);
      assert s == s[..i] + [sep] + s[i + 1..];
      assert ([s[..i]] + rest)[1..] == rest;
    }
  }

  /** Splitting at a separator between `a` and `b` splits `a` and `b`
      apart: the pieces keep their order. */
  lemma {:induction false} SplitAppend(a: string, b: string, sep: char)
    ensures Split(a + [sep] + b, sep) == Split(a, sep) + Split(b, sep)
    decreases |a|
  {
    var i := IndexOf(a, sep);
    if i == -1 {
      SplitAppendNoSeparator(a, b, sep);
    } else {
      SplitAppend(a[i + 1..], b, sep);
      SplitAppendStep(a, b, sep, i);
    }
  }

  lemma SplitAppendNoSeparator(a: string, b: string, sep: char)
    requires sep !in a
    ensures Split(a + [sep] + b, sep) == Split(a, sep) + Split(b, sep)
  {
    var s := a + [sep] + b;
    assert s[..|a|] == a;
    assert s[|a| + 1..] == b;
    SplitUnfold(s, sep, |a|);
  }

  lemma SplitAppendStep(a: string, b: string, sep: char, i: int)
    requires i == IndexOf(a, sep) && i != -1
    requires Split(a[i + 1..] + [sep] + b, sep) == Split(a[i + 1..], sep) + Split(b, sep)
    ensures Split(a + [sep] + b, sep) == Split(a, sep) + Split(b, sep)
  {
    var head, rest := a[..i], a[i + 1..];
    SplitUnfold(a, sep, i);
    SplitUnfoldJoined(a, b, sep, i);
    AppendStep(Split(a, sep), Split(a + [sep] + b, sep), [head], Split(rest, sep),
               Split(rest + [sep] + b, sep), Split(b, sep));
  }

  lemma SplitUnfoldJoined(a: string, b: string, sep: char, i: int)
    requires i == IndexOf(a, sep) && i != -1
    ensures Split(a + [sep] + b, sep) == [a[..i]] + Split(a[i + 1..] + [sep] + b, sep)
  {
    var s := a + [sep] + b;
    CutInFirst(a, [sep] + b, i);
    assert s == a + ([sep] + b);
    assert a[i + 1..] + ([sep] + b) == a[i + 1..] + [sep] + b;
    SplitUnfold(s, sep, i);
  }

  /** The first piece of a split runs up to the first separator. */
  lemma SplitUnfold(s: string, sep: char, i: nat)
    requires i < |s| && s[i] == sep && sep !in s[..i]
    ensures Split(s, sep) == [s[..i]] + Split(s[i + 1..], sep)
  {
    IndexOfIs(s, sep, i);
  }

  /** Splitting what was joined gives back the pieces, when no piece holds
      the separator. */
  lemma {:induction false} SplitJoin(parts: seq<string>, sep: char)
    requires |parts| >= 1
    requires forall p :: p in parts ==> sep !in p
    ensures Split(Join(parts, sep), sep) == parts
  {
    if |parts| > 1 {
      var rest := parts[1..];
      var joined := Join(parts, sep);
      assert joined == parts[0] + [sep] + Join(rest, sep);
      assert joined[..|parts[0]|] == parts[0];
      SplitUnfold(joined, sep, |parts[0]|);
      assert joined[|parts[0]| + 1..] == Join(rest, sep);
      assert forall p :: p in rest ==> p in parts;
      SplitJoin(rest, sep);
      assert parts == [parts[0]] + rest;
    }
  }

  // ---------------------------------------------------------------------------
  // map(trim) and filter(non-empty) over lists of strings
  // ---------------------------------------------------------------------------

  /** `xs.filter(x => x.length !== 0)` (and `xs.filter(x => !!x)`, which is
      the same on strings): the non-empty strings of `xs`, in order. */
  function DropEmpty(xs: seq<string>): (r: seq<string>)
    ensures |r| <= |xs|
    ensures forall x :: x in r ==> x in xs && x != []
  {
    if xs == [] then []
    else
      assert forall x :: x in xs[1..] ==> x in xs;
      (if xs[0] == [] then [] else [xs[0]]) + DropEmpty(xs[1..])
  }

  /** `xs.map(x => x.trim())`. */
  function TrimAll(xs: seq<string>): (r: seq<string>)
    ensures |r| == |xs|
    ensures forall i :: 0 <= i < |xs| ==> r[i] == Trim(xs[i])
  {
    if xs == [] then [] else [Trim(xs[0])] + TrimAll(xs[1..])
  }

  lemma {:induction false} DropEmptyAppend(a: seq<string>, b: seq<string>)
    ensures DropEmpty(a + b) == DropEmpty(a) + DropEmpty(b)
  {
    if a != [] {
      assert (a + b)[1..] == a[1..] + b;
      DropEmptyAppend(a[1..], b);
    } else {
      assert a + b == b;
    }
  }

  lemma {:induction false} TrimAllAppend(a: seq<string>, b: seq<string>)
    ensures TrimAll(a + b) == TrimAll(a) + TrimAll(b)
  {
    if a != [] {
      assert (a + b)[1..] == a[1..] + b;
      TrimAllAppend(a[1..], b);
    } else {
      assert a + b == b;
    }
  }

  /** Dropping the empty strings from a list that has none changes nothing. */
  lemma {:induction false} DropEmptyNone(xs: seq<string>)
    requires forall x :: x in xs ==> x != []
    ensures DropEmpty(xs) == xs
  {
    if xs != [] {
      assert xs[0] in xs;
      assert forall x :: x in xs[1..] ==> x in xs;
      DropEmptyNone(xs[1..]);
    }
  }

  /** Trimming strings that are already trimmed changes none of them. */
  lemma TrimAllFixed(xs: seq<string>)
    requires forall x :: x in xs ==> Trim(x) == x
    ensures TrimAll(xs) == xs
  {
    assert forall i :: 0 <= i < |xs| ==> xs[i] in xs;
  }

  /** Trimming strings that hold no white space changes none of them. */
  lemma {:induction false} TrimAllNoWhitespace(xs: seq<string>)
    requires forall x :: x in xs ==> NoWhitespace(x)
    ensures TrimAll(xs) == xs
  {
    if xs != [] {
      assert xs[0] in xs;
      assert forall x :: x in xs[1..] ==> x in xs;
      TrimAllNoWhitespace(xs[1..]);
    }
  }

  /** Dropping the empty strings before trimming changes nothing once the
      empty strings are dropped again after it. */
  lemma {:induction false} DropEmptyBeforeTrim(xs: seq<string>)
    ensures DropEmpty(TrimAll(DropEmpty(xs))) == DropEmpty(TrimAll(xs))
  {
    if xs != [] {
      var head := if xs[0] == [] then [] else [xs[0]];
      calc {
        DropEmpty(TrimAll(DropEmpty(xs)));
        { TrimAllAppend(head, DropEmpty(xs[1..])); }
        DropEmpty(TrimAll(head) + TrimAll(DropEmpty(xs[1..])));
        { DropEmptyAppend(TrimAll(head), TrimAll(DropEmpty(xs[1..]))); }
        DropEmpty(TrimAll(head)) + DropEmpty(TrimAll(DropEmpty(xs[1..])));
        { DropEmptyBeforeTrim(xs[1..]); }
        DropEmpty(TrimAll(head)) + DropEmpty(TrimAll(xs[1..]));
        { assert DropEmpty(TrimAll(head)) == DropEmpty(TrimAll([xs[0]])); }
        DropEmpty(TrimAll([xs[0]])) + DropEmpty(TrimAll(xs[1..]));
        { DropEmptyAppend(TrimAll([xs[0]]), TrimAll(xs[1..]));
          TrimAllAppend([xs[0]], xs[1..]);
          assert [xs[0]] + xs[1..] == xs; }
        DropEmpty(TrimAll(xs));
      }
    }
  }

  // ---------------------------------------------------------------------------
  // split(/\s+/)
  // ---------------------------------------------------------------------------

  /** `s.split(/\s+/)`: the pieces between the maximal runs of white space,
      in order. White space at the start or at the end gives an empty first
      or last piece; no piece holds white space. */
  function SplitOnWhitespaceRuns(s: string): (parts: seq<string>)
    ensures |parts| >= 1
    ensures forall p :: p in parts ==> NoWhitespace(p)
    decreases |s|
  {
    var i := NextWhitespace(s, 0);
    if i == |s| then
      assert s[..i] == s;
      [s]
    else
      [s[..i]] + SplitOnWhitespaceRuns(s[RunEnd(s, i)..])
  }

  /** `s.split(/\s+/).map(p => p.trim()).filter(p => p.length !== 0)`: the
      white-space separated tokens of `s`, in order. */
  function Tokens(s: string): (tokens: seq<string>)
    ensures forall t :: t in tokens ==> t != [] && NoWhitespace(t)
  {
    var parts := SplitOnWhitespaceRuns(s);
    TrimAllNoWhitespace(parts);
    DropEmpty(TrimAll(parts))
  }

  /** A token list of zero or one element: the string itself unless it is empty. */
  function Piece(p: string): seq<string>
  {
    if p == [] then [] else [p]
  }

  /** Trimming the pieces of `split(/\s+/)` changes nothing: none holds white space. */
  lemma TokensOfPieces(s: string)
    ensures Tokens(s) == DropEmpty(SplitOnWhitespaceRuns(s))
  {
    TrimAllNoWhitespace(SplitOnWhitespaceRuns(s));
  }

  /** When `s[i..j]` is the first maximal run of white space, `split(/\s+/)`
      cuts `s` at that run. */
  lemma SplitRunsAt(s: string, i: nat, j: nat)
    requires i < j <= |s|
    requires forall k :: 0 <= k < i ==> !IsWhitespace(s[k])
    requires forall k :: i <= k < j ==> IsWhitespace(s[k])
    requires j < |s| ==> !IsWhitespace(s[j])
    ensures SplitOnWhitespaceRuns(s) == [s[..i]] + SplitOnWhitespaceRuns(s[j..])
  {
    NextWhitespaceIs(s, 0, i);
    RunEndIs(s, i, j);
  }

  lemma TokensCons(s: string, head: string, after: string)
    requires SplitOnWhitespaceRuns(s) == [head] + SplitOnWhitespaceRuns(after)
    ensures Tokens(s) == Piece(head) + Tokens(after)
  {
    TokensOfPieces(s);
    TokensOfPieces(after);
    DropEmptyAppend([head], SplitOnWhitespaceRuns(after));
  }

  /** A string without white space is its own single token, or no token when empty. */
  lemma TokensWhole(s: string)
    requires NoWhitespace(s)
    ensures Tokens(s) == Piece(s)
  {
    NextWhitespaceIs(s, 0, |s|);
    assert s[..|s|] == s;
    TokensOfPieces(s);
  }

  /** Cutting at the first maximal run of white space `s[i..j]`. */
  lemma TokensAt(s: string, i: nat, j: nat)
    requires i < j <= |s|
    requires forall k :: 0 <= k < i ==> !IsWhitespace(s[k])
    requires forall k :: i <= k < j ==> IsWhitespace(s[k])
    requires j < |s| ==> !IsWhitespace(s[j])
    ensures Tokens(s) == Piece(s[..i]) + Tokens(s[j..])
  {
    SplitRunsAt(s, i, j);
    TokensCons(s, s[..i], s[j..]);
  }

  /** `TokensAt`, with the two sides of the cut named. */
  lemma TokensAtParts(s: string, i: nat, j: nat, before: string, after: string)
    requires i < j <= |s|
    requires forall k :: 0 <= k < i ==> !IsWhitespace(s[k])
    requires forall k :: i <= k < j ==> IsWhitespace(s[k])
    requires j < |s| ==> !IsWhitespace(s[j])
    requires s[..i] == before && s[j..] == after
    ensures Tokens(s) == Piece(before) + Tokens(after)
  {
    TokensAt(s, i, j);
  }

  /** White space at the start of `s` does not change its tokens. */
  lemma TokensSkipLeading(s: string)
    ensures Tokens(s) == Tokens(s[RunEnd(s, 0)..])
  {
    var lead := RunEnd(s, 0);
    if lead > 0 {
      TokensAt(s, 0, lead);
    }
  }

  /** A run of white space separates the tokens on its two sides: the tokens
      of `a + w + b` are those of `a` followed by those of `b`. */
  lemma {:induction false} TokensSeparated(a: string, w: string, b: string)
    requires w != [] && AllWhitespace(w)
    ensures Tokens(a + w + b) == Tokens(a) + Tokens(b)
    decreases |a|
  {
    var i := NextWhitespace(a, 0);
    if i == |a| {
      SeparatedWord(a, w, b);
    } else {
      var j := RunEnd(a, i);
      if j < |a| {
        TokensSeparated(a[j..], w, b);
        TokensAtParts(a, i, j, a[..i], a[j..]);
        CutInsideWord(a, w, b, i, j);
        AppendStep(Tokens(a), Tokens(a + w + b), Piece(a[..i]),
                   Tokens(a[j..]), Tokens(a[j..] + w + b), Tokens(b));
      } else {
        SeparatedEndRun(a, w, b, i);
      }
    }
  }

  /** `TokensSeparated` when `a` holds no white space. */
  lemma SeparatedWord(a: string, w: string, b: string)
    requires w != [] && AllWhitespace(w) && NextWhitespace(a, 0) == |a|
    ensures Tokens(a + w + b) == Tokens(a) + Tokens(b)
  {
    TokensWhole(a);
    TokensSkipLeading(b);
    CutAfterWord(a, w, b);
  }

  /** `TokensSeparated` when `a` ends with its first run of white space,
      which starts at `i`. */
  lemma SeparatedEndRun(a: string, w: string, b: string, i: nat)
    requires i < |a| && w != [] && AllWhitespace(w)
    requires forall k :: 0 <= k < i ==> !IsWhitespace(a[k])
    requires forall k :: i <= k < |a| ==> IsWhitespace(a[k])
    ensures Tokens(a + w + b) == Tokens(a) + Tokens(b)
  {
    var head, rest := a[..i], b[RunEnd(b, 0)..];
    assert a[|a|..] == [];
    assert Piece(head) + [] == Piece(head);
    TokensWhole([]);
    TokensAtParts(a, i, |a|, head, []);
    TokensSkipLeading(b);
    CutAtEndRun(a, w, b, i);
  }

  lemma CutAfterWord(a: string, w: string, b: string)
    requires w != [] && AllWhitespace(w) && NextWhitespace(a, 0) == |a|
    ensures Tokens(a + w + b) == Piece(a) + Tokens(b[RunEnd(b, 0)..])
  {
    var s := a + w + b;
    var lb := RunEnd(b, 0);
    var j := |a| + |w| + lb;
    assert forall k :: 0 <= k < |a| ==> s[k] == a[k];
    assert forall k :: |a| <= k < j ==> IsWhitespace(s[k]) by {
      forall k | |a| <= k < j
        ensures IsWhitespace(s[k])
      {
        if k < |a| + |w| {
          assert s[k] == w[k - |a|];
        } else {
          assert s[k] == b[k - |a| - |w|];
        }
      }
    }
    assert j < |s| ==> s[j] == b[lb];
    assert s[..|a|] == a;
    assert s[j..] == b[lb..];
    TokensAtParts(s, |a|, j, a, b[lb..]);
  }

  lemma CutInsideWord(a: string, w: string, b: string, i: nat, j: nat)
    requires i < j < |a|
    requires forall k :: 0 <= k < i ==> !IsWhitespace(a[k])
    requires forall k :: i <= k < j ==> IsWhitespace(a[k])
    requires !IsWhitespace(a[j])
    ensures Tokens(a + w + b) == Piece(a[..i]) + Tokens(a[j..] + w + b)
  {
    var s := a + w + b;
    assert forall k :: 0 <= k < j + 1 ==> s[k] == a[k];
    assert s[..i] == a[..i];
    assert s[j..] == a[j..] + w + b;
    TokensAtParts(s, i, j, a[..i], a[j..] + w + b);
  }

  lemma CutAtEndRun(a: string, w: string, b: string, i: nat)
    requires i < |a| && w != [] && AllWhitespace(w)
    requires forall k :: 0 <= k < i ==> !IsWhitespace(a[k])
    requires forall k :: i <= k < |a| ==> IsWhitespace(a[k])
    ensures Tokens(a + w + b) == Piece(a[..i]) + Tokens(b[RunEnd(b, 0)..])
  {
    var s := a + w + b;
    var lb := RunEnd(b, 0);
    var j := |a| + |w| + lb;
    assert forall k :: 0 <= k < i ==> s[k] == a[k];
    assert forall k :: i <= k < j ==> IsWhitespace(s[k]) by {
      forall k | i <= k < j
        ensures IsWhitespace(s[k])
      {
        if k < |a| {
          assert s[k] == a[k];
        } else if k < |a| + |w| {
          assert s[k] == w[k - |a|];
        } else {
          assert s[k] == b[k - |a| - |w|];
        }
      }
    }
    assert j < |s| ==> s[j] == b[lb];
    assert s[..i] == a[..i];
    assert s[j..] == b[lb..];
    TokensAtParts(s, i, j, a[..i], b[lb..]);
  }

  /** A non-empty string without white space is one token. */
  lemma SingleToken(t: string)
    requires t != [] && NoWhitespace(t)
    ensures Tokens(t) == [t]
  {
    TokensWhole(t);
  }

  /** White space after a string does not change its tokens. */
  lemma TokensTrailing(m: string, back: string)
    requires AllWhitespace(back)
    ensures Tokens(m + back) == Tokens(m)
  {
    if back != [] {
      TokensWhole([]);
      TokensSeparated(m, back, []);
      assert m + back + [] == m + back;
    } else {
      assert m + back == m;
    }
  }

  /** White space before a string does not change its tokens. */
  lemma TokensLeading(front: string, m: string)
    requires AllWhitespace(front)
    ensures Tokens(front + m) == Tokens(m)
  {
    if front != [] {
      assert [] + front + m == front + m;
      TokensSeparated([], front, m);
      TokensWhole([]);
      assert Tokens([]) + Tokens(m) == Tokens(m);
    } else {
      assert front + m == m;
    }
  }

  /** White space around a string does not change its tokens. */
  lemma TokensAround(front: string, m: string, back: string)
    requires AllWhitespace(front) && AllWhitespace(back)
    ensures Tokens(front + m + back) == Tokens(m)
  {
    var mb := m + back;
    assert front + m + back == front + mb;
    TokensLeading(front, mb);
    TokensTrailing(m, back);
  }

  /** Trimming does not change the tokens. */
  lemma TokensOfTrim(s: string)
    ensures Tokens(Trim(s)) == Tokens(s)
  {
    if AllWhitespace(s) {
      assert s + [] + [] == s;
      TokensAround(s, [], []);
    } else {
      var lo, hi := RunEnd(s, 0), RunStart(s, |s|);
      var front, m, back := s[..lo], s[lo..hi], s[hi..];
      assert s == front + m + back;
      assert Trim(s) == m;
      TokensAround(front, m, back);
    }
  }

  /** Tokens joined by single spaces split back into the same tokens. */
  lemma {:induction false} TokensOfJoin(tokens: seq<string>)
    requires forall t :: t in tokens ==> t != [] && NoWhitespace(t)
    ensures Tokens(Join(tokens, ' ')) == tokens
  {
    if tokens == [] {
      TokensWhole([]);
    } else if |tokens| == 1 {
      assert tokens[0] in tokens;
      SingleToken(tokens[0]);
    } else {
      assert tokens[0] in tokens;
      assert forall t :: t in tokens[1..] ==> t in tokens;
      TokensOfJoin(tokens[1..]);
      SingleToken(tokens[0]);
      TokensSeparated(tokens[0], [' '], Join(tokens[1..], ' '));
      assert tokens == [tokens[0]] + tokens[1..];
    }
  }

  // ---------------------------------------------------------------------------
  // replace (first occurrence only) and toUpperCase
  // ---------------------------------------------------------------------------

  /** `s.replace(c, replacement)` with a string pattern: only the first
      occurrence of `c` is replaced. */
  function ReplaceFirst(s: string, c: char, replacement: string): (r: string)
    ensures c !in s ==> r == s
    ensures |r| == if c in s then |s| - 1 + |replacement| else |s|
  {
    var i := IndexOf(s, c);
    if i == -1 then s else s[..i] + replacement + s[i + 1..]
  }

  /** The occurrence that is replaced is the first one; the text on both
      sides of it is kept, later occurrences included. */
  lemma ReplaceFirstIs(s: string, c: char, replacement: string, i: nat)
    requires i < |s| && s[i] == c && c !in s[..i]
    ensures ReplaceFirst(s, c, replacement) == s[..i] + replacement + s[i + 1..]
  {
    IndexOfIs(s, c, i);
  }

  predicate AllWordOrHyphen(s: string)
  {
    forall k :: 0 <= k < |s| ==> IsWordOrHyphen(s[k])
  }

  /** The position of the first character outside `[\w-]`, or `|s|`. */
  function FirstNonWordOrHyphen(s: string): (i: nat)
    ensures i <= |s|
    ensures forall k :: 0 <= k < i ==> IsWordOrHyphen(s[k])
    ensures i < |s| ==> !IsWordOrHyphen(s[i])
  {
    if s == [] || !IsWordOrHyphen(s[0]) then 0
    else 1 + FirstNonWordOrHyphen(s[1..])
  }

  lemma {:induction false} FirstNonWordOrHyphenIs(s: string, i: nat)
    requires i < |s| && !IsWordOrHyphen(s[i])
    requires forall k :: 0 <= k < i ==> IsWordOrHyphen(s[k])
    ensures FirstNonWordOrHyphen(s) == i
  {
    if i > 0 {
      FirstNonWordOrHyphenIs(s[1..], i - 1);
    }
  }

  /** `s.replace(/[^\w-]/, '')`: the regular expression has no `g` flag, so
      only the first character outside `[\w-]` is removed. */
  function RemoveFirstNonWordOrHyphen(s: string): (r: string)
    ensures AllWordOrHyphen(s) ==> r == s
    ensures !AllWordOrHyphen(s) ==> |r| == |s| - 1
  {
    var i := FirstNonWordOrHyphen(s);
    if i == |s| then s else s[..i] + s[i + 1..]
  }

  /** The character removed is the first one outside `[\w-]`; every other
      character stays, in order, later disallowed ones included. */
  lemma RemoveFirstNonWordOrHyphenIs(s: string, i: nat)
    requires i < |s| && !IsWordOrHyphen(s[i])
    requires forall k :: 0 <= k < i ==> IsWordOrHyphen(s[k])
    ensures RemoveFirstNonWordOrHyphen(s) == s[..i] + s[i + 1..]
  {
    FirstNonWordOrHyphenIs(s, i);
  }

  /** The upper-case form of one character: ASCII lower-case letters move
      to upper case, every other character stays. */
  function UpperChar(c: char): (u: char)
    ensures !IsLowerAscii(u)
    ensures IsWordOrHyphen(u) == IsWordOrHyphen(c)
    ensures !IsLowerAscii(c) ==> u == c
    ensures IsLowerAscii(c) ==> 'A' <= u <= 'Z' && u as int == c as int - ('a' as int - 'A' as int)
  {
    if IsLowerAscii(c) then (c as int - ('a' as int - 'A' as int)) as char else c
  }

  /** `s.toUpperCase()` on ASCII: each lower-case ASCII letter becomes its
      upper-case letter, every other character stays. */
  function UpperAscii(s: string): (r: string)
    ensures |r| == |s|
    ensures forall i :: 0 <= i < |s| ==> r[i] == UpperChar(s[i])
    ensures forall i :: 0 <= i < |r| ==> !IsLowerAscii(r[i])
    ensures AllWordOrHyphen(r) == AllWordOrHyphen(s)
  {
    var r := seq(|s|, i requires 0 <= i < |s| => UpperChar(s[i]));
    assert forall i :: 0 <= i < |s| ==> IsWordOrHyphen(r[i]) == IsWordOrHyphen(s[i]);
    r
  }

  /** Upper-casing twice is upper-casing once. */
  lemma UpperAsciiIdempotent(s: string)
    ensures UpperAscii(UpperAscii(s)) == UpperAscii(s)
  {
    var u := UpperAscii(s);
    assert forall i :: 0 <= i < |u| ==> UpperAscii(u)[i] == u[i];
  }
}
