/**
 * The shell-like tokenizer for migration lines: whitespace separates tokens, single
 * and double quotes group, and a backslash keeps the character after it.
 */
module ShlexParser {
  import opened Text
  import opened Wrappers

  predicate IsQuote(c: char) {
    c == '"' || c == '\''
  }

  /** What `split` produces: the tokens, or the ValueError raised for an unterminated quote. */
  datatype SplitResult = Tokens(tokens: seq<string>) | UnterminatedQuote

  function Cons(token: string, rest: SplitResult): SplitResult {
    match rest
    case Tokens(ts) => Tokens([token] + ts)
    case UnterminatedQuote => UnterminatedQuote
  }

  /**
   * An unquoted token at the start of `s`: characters up to the first unescaped whitespace,
   * a backslash that has a successor being dropped. Returns the token and what follows it.
   */
  function BareToken(s: string): (r: (string, string))
    ensures |r.1| <= |s|
    ensures s != [] && !IsSpace(s[0]) ==> |r.1| < |s|
    decreases |s|
  {
    if s == [] || IsSpace(s[0]) then ([], s)
    else if s[0] == '\\' && |s| >= 2 then
      var r := BareToken(s[2..]); ([s[1]] + r.0, r.1)
    else
      var r := BareToken(s[1..]); ([s[0]] + r.0, r.1)
  }

  /**
   * A quoted token whose opening quote `q` was just consumed: characters up to the next
   * unescaped `q`, which is consumed too. None when the line ends first.
   */
  function QuotedToken(s: string, q: char): (r: Option<(string, string)>)
    ensures r.Some? ==> |r.value.1| < |s|
    decreases |s|
  {
    if s == [] then None
    else if s[0] == q then Some(([], s[1..]))
    else if s[0] == '\\' && |s| >= 2 then PrependChars([s[1]], QuotedToken(s[2..], q))
    else PrependChars([s[0]], QuotedToken(s[1..], q))
  }

  function PrependChars(chars: string, r: Option<(string, string)>): (r': Option<(string, string)>)
    ensures r'.Some? <==> r.Some?
    ensures r.Some? ==> r'.value.1 == r.value.1
  {
    if r.None? then None else Some((chars + r.value.0, r.value.1))
  }

  /** The meaning of `split`, as a function of the remaining input. */
  function Lex(s: string): SplitResult
    decreases |s|
  {
    if s == [] then Tokens([])
    else if IsSpace(s[0]) then Lex(s[1..])
    else if IsQuote(s[0]) then
      var q := QuotedToken(s[1..], s[0]);
      if q.None? then UnterminatedQuote else Cons(q.value.0, Lex(q.value.1))
    else
      var b := BareToken(s); Cons(b.0, Lex(b.1))
  }

  function Prepend(tokens: seq<string>, r: SplitResult): SplitResult {
    match r
    case Tokens(ts) => Tokens(tokens + ts)
    case UnterminatedQuote => UnterminatedQuote
  }

  lemma PrependCons(tokens: seq<string>, t: string, r: SplitResult)
    ensures Prepend(tokens, Cons(t, r)) == Prepend(tokens + [t], r)
  {
    if r.Tokens? {
      assert tokens + ([t] + r.tokens) == (tokens + [t]) + r.tokens;
    }
  }

  lemma SkipSpaceStep(line: string, i: nat)
    requires i < |line| && IsSpace(line[i])
    ensures Lex(line[i..]) == Lex(line[i + 1..])
  {
    assert line[i..][1..] == line[i + 1..];
  }

  lemma PrependCharsAssoc(a: string, b: string, r: Option<(string, string)>)
    ensures PrependChars(a, PrependChars(b, r)) == PrependChars(a + b, r)
    ensures PrependChars([], r) == r
  {
    if r.Some? {
      assert a + (b + r.value.0) == (a + b) + r.value.0;
      assert [] + r.value.0 == r.value.0;
    }
  }

  /** One step of the quoted-token loop. */
  lemma QuotedStep(line: string, i: nat, q: char, chars: string)
    requires i < |line| && line[i] != q
    ensures line[i] == '\\' && i + 1 < |line| ==>
      PrependChars(chars, QuotedToken(line[i..], q)) == PrependChars(chars + [line[i + 1]], QuotedToken(line[i + 2..], q))
    ensures !(line[i] == '\\' && i + 1 < |line|) ==>
      PrependChars(chars, QuotedToken(line[i..], q)) == PrependChars(chars + [line[i]], QuotedToken(line[i + 1..], q))
  {
    var s := line[i..];
    if line[i] == '\\' && i + 1 < |line| {
      assert s[2..] == line[i + 2..];
      assert QuotedToken(s, q) == PrependChars([line[i + 1]], QuotedToken(line[i + 2..], q));
      PrependCharsAssoc(chars, [line[i + 1]], QuotedToken(line[i + 2..], q));
    } else {
      assert s[1..] == line[i + 1..];
      assert QuotedToken(s, q) == PrependChars([line[i]], QuotedToken(line[i + 1..], q));
      PrependCharsAssoc(chars, [line[i]], QuotedToken(line[i + 1..], q));
    }
  }

  /** One step of the unquoted-token loop. */
  lemma BareStep(line: string, i: nat, chars: string)
    requires i < |line| && !IsSpace(line[i])
    ensures line[i] == '\\' && i + 1 < |line| ==>
      chars + BareToken(line[i..]).0 == (chars + [line[i + 1]]) + BareToken(line[i + 2..]).0
      && BareToken(line[i..]).1 == BareToken(line[i + 2..]).1
    ensures !(line[i] == '\\' && i + 1 < |line|) ==>
      chars + BareToken(line[i..]).0 == (chars + [line[i]]) + BareToken(line[i + 1..]).0
      && BareToken(line[i..]).1 == BareToken(line[i + 1..]).1
  {
    var s := line[i..];
    if line[i] == '\\' && i + 1 < |line| {
      assert s[2..] == line[i + 2..];
      assert chars + ([line[i + 1]] + BareToken(line[i + 2..]).0) == (chars + [line[i + 1]]) + BareToken(line[i + 2..]).0;
    } else {
      assert s[1..] == line[i + 1..];
      assert chars + ([line[i]] + BareToken(line[i + 1..]).0) == (chars + [line[i]]) + BareToken(line[i + 1..]).0;
    }
  }

  /** The quoted-token loop stopped at the closing quote at `i`. */
  lemma QuotedClosed(line: string, start: nat, i: nat, chars: string)
    requires start < i < |line| && IsQuote(line[start]) && line[i] == line[start]
    requires QuotedToken(line[start + 1..], line[start]) == PrependChars(chars, QuotedToken(line[i..], line[start]))
    ensures Lex(line[start..]) == Cons(chars, Lex(line[i + 1..]))
  {
    var s := line[i..];
    assert s[1..] == line[i + 1..];
    assert QuotedToken(s, line[start]) == Some(([], line[i + 1..]));
    assert chars + [] == chars;
    assert line[start..][1..] == line[start + 1..];
  }

  /** The quoted-token loop ran off the end of the line. */
  lemma QuotedUnclosed(line: string, start: nat, chars: string)
    requires start < |line| && IsQuote(line[start])
    requires QuotedToken(line[start + 1..], line[start]) == PrependChars(chars, QuotedToken(line[|line|..], line[start]))
    ensures Lex(line[start..]) == UnterminatedQuote
  {
    assert line[start..][1..] == line[start + 1..];
  }

  /** The unquoted-token loop stopped at whitespace or at the end of the line. */
  lemma BareEnded(line: string, start: nat, i: nat, chars: string)
    requires start < i <= |line| && !IsSpace(line[start]) && !IsQuote(line[start])
    requires i == |line| || IsSpace(line[i])
    requires BareToken(line[start..]).0 == chars + BareToken(line[i..]).0
    requires BareToken(line[start..]).1 == BareToken(line[i..]).1
    ensures Lex(line[start..]) == Cons(chars, Lex(line[i..]))
  {
    assert BareToken(line[i..]) == ([], line[i..]);
    assert chars + [] == chars;
  }

  /** After consuming `line[..i]`, `tokens` are the tokens already read and the rest is still to come. */
  predicate Consumed(line: string, tokens: seq<string>, i: nat)
    requires i <= |line|
  {
    Lex(line) == Prepend(tokens, Lex(line[i..]))
  }

  /**
   * The quoted-token loop of `split`: reads from just after the opening quote at `start`
   * up to the closing quote; `closed` is false when the line ends first.
   */
  method ReadQuoted(line: string, start: nat) returns (tokenChars: string, i: nat, closed: bool)
    requires start < |line| && IsQuote(line[start])
    ensures start < i <= |line|
    ensures !closed ==> i == |line|
    ensures closed ==> Lex(line[start..]) == Cons(tokenChars, Lex(line[i..]))
    ensures !closed ==> Lex(line[start..]) == UnterminatedQuote
  {
    var n := |line|;
    var quote := line[start];
    tokenChars := [];
    i := start + 1;
    PrependCharsAssoc([], [], QuotedToken(line[i..], quote));
    while i < n && line[i] != quote
      invariant start < i <= n
      invariant QuotedToken(line[start + 1..], quote) == PrependChars(tokenChars, QuotedToken(line[i..], quote))
      decreases n - i
    {
      QuotedStep(line, i, quote, tokenChars);
      if line[i] == '\\' && i + 1 < n {
        // Escape next character
        i := i + 1;
        tokenChars := tokenChars + [line[i]];
      } else {
        tokenChars := tokenChars + [line[i]];
      }
      i := i + 1;
    }
    if i >= n {
      QuotedUnclosed(line, start, tokenChars);
      closed := false;
    } else {
      QuotedClosed(line, start, i, tokenChars);
      closed := true;
      i := i + 1;
    }
  }

  /** The unquoted-token loop of `split`: reads from `start` up to whitespace or the end of the line. */
  method ReadBare(line: string, start: nat) returns (tokenChars: string, i: nat)
    requires start < |line| && !IsSpace(line[start]) && !IsQuote(line[start])
    ensures start < i <= |line|
    ensures Lex(line[start..]) == Cons(tokenChars, Lex(line[i..]))
  {
    var n := |line|;
    tokenChars := [];
    i := start;
    assert [] + BareToken(line[i..]).0 == BareToken(line[i..]).0;
    while i < n && !IsSpace(line[i])
      invariant start <= i <= n
      invariant BareToken(line[start..]).0 == tokenChars + BareToken(line[i..]).0
      invariant BareToken(line[start..]).1 == BareToken(line[i..]).1
      decreases n - i
    {
      BareStep(line, i, tokenChars);
      if line[i] == '\\' && i + 1 < n {
        // Escape next character
        i := i + 1;
        tokenChars := tokenChars + [line[i]];
      } else {
        tokenChars := tokenChars + [line[i]];
      }
      i := i + 1;
    }
    BareEnded(line, start, i, tokenChars);
  }

  /** `split`: the cursor `i` walks the line once; the result is exactly `Lex(line)`. */
  method Split(line: string) returns (r: SplitResult)
    ensures r == Lex(line)
  {
    var tokens: seq<string> := [];
    var i := 0;
    var n := |line|;
    while i < n
      invariant 0 <= i <= n
      invariant Consumed(line, tokens, i)
      decreases n - i
    {
      // Skip whitespace
      while i < n && IsSpace(line[i])
        invariant 0 <= i <= n
        invariant Consumed(line, tokens, i)
        decreases n - i
      {
        SkipSpaceStep(line, i);
        i := i + 1;
      }
      if i >= n {
        break;
      }
      ghost var start := i;
      var tokenChars: string;
      if IsQuote(line[i]) {
        var closed;
        tokenChars, i, closed := ReadQuoted(line, i);
        if !closed {
          return UnterminatedQuote;
        }
      } else {
        tokenChars, i := ReadBare(line, i);
      }
      PrependCons(tokens, tokenChars, Lex(line[i..]));
      tokens := tokens + [tokenChars];
    }
    r := Tokens(tokens);
    assert Lex(line[n..]) == Tokens([]);
    assert tokens + [] == tokens;
  }

  // ----- Properties of the tokenizer -----

  predicate AllSpace(s: string) {
    forall i :: 0 <= i < |s| ==> IsSpace(s[i])
  }

  /** Empty or whitespace-only input, and only such input, yields no tokens. */
  lemma {:induction false} NoTokensIffBlank(s: string)
    ensures Lex(s) == Tokens([]) <==> AllSpace(s)
    decreases |s|
  {
    if s == [] {
    } else if IsSpace(s[0]) {
      NoTokensIffBlank(s[1..]);
      assert AllSpace(s) <==> AllSpace(s[1..]) by {
        if AllSpace(s[1..]) {
          forall i | 0 <= i < |s| ensures IsSpace(s[i]) {
            if i > 0 { assert s[i] == s[1..][i - 1]; }
          }
        }
      }
    } else {
      assert !AllSpace(s);
    }
  }

  /** How `Lex` reads a line that starts with a quote. */
  lemma LexQuoted(s: string)
    requires s != [] && IsQuote(s[0])
    ensures QuotedToken(s[1..], s[0]).None? ==> Lex(s) == UnterminatedQuote
    ensures QuotedToken(s[1..], s[0]).Some? ==>
      Lex(s) == Cons(QuotedToken(s[1..], s[0]).value.0, Lex(QuotedToken(s[1..], s[0]).value.1))
  {
    assert !IsSpace(s[0]);
  }

  /** A quoted token in which the quote never closes. */
  lemma {:induction false} QuoteNeverCloses(c: string, q: char)
    requires forall i :: 0 <= i < |c| ==> c[i] != q
    ensures QuotedToken(c, q) == None
    decreases |c|
  {
    if c == [] {
    } else if c[0] == '\\' && |c| >= 2 {
      QuoteNeverCloses(c[2..], q);
    } else {
      QuoteNeverCloses(c[1..], q);
    }
  }

  /** An opening quote whose character does not occur again is the ValueError for an unterminated quote. */
  lemma UnterminatedQuoteRaises(q: char, c: string)
    requires IsQuote(q)
    requires forall i :: 0 <= i < |c| ==> c[i] != q
    ensures Lex([q] + c) == UnterminatedQuote
  {
    QuoteNeverCloses(c, q);
    LexQuoted([q] + c);
    assert ([q] + c)[1..] == c;
  }

  /** A quoted body without its quote character and without backslashes is taken literally, up to the closing quote. */
  lemma {:induction false} QuotedLiteral(c: string, q: char, rest: string)
    requires forall i :: 0 <= i < |c| ==> c[i] != q && c[i] != '\\'
    ensures QuotedToken(c + [q] + rest, q) == Some((c, rest))
    decreases |c|
  {
    var s := c + [q] + rest;
    if c == [] {
      assert s[0] == q && s[1..] == rest;
    } else {
      assert s[0] == c[0] && s[1..] == c[1..] + [q] + rest;
      QuotedLiteral(c[1..], q, rest);
      assert [c[0]] + c[1..] == c;
    }
  }

  /**
   * A quoted token: the quotes are stripped, whitespace and the other quote kind inside it are kept,
   * it may be empty, and it ends at its closing quote even when no whitespace follows.
   */
  lemma QuotedTokenRead(q: char, c: string, rest: string)
    requires IsQuote(q)
    requires forall i :: 0 <= i < |c| ==> c[i] != q && c[i] != '\\'
    ensures Lex([q] + c + [q] + rest) == Cons(c, Lex(rest))
  {
    var s := [q] + c + [q] + rest;
    QuotedLiteral(c, q, rest);
    LexQuoted(s);
    assert s[1..] == c + [q] + rest;
  }

  /** Every character preceded by a backslash. */
  function EscapeAll(t: string): (r: string)
    ensures |r| == 2 * |t|
  {
    if t == [] then [] else ['\\', t[0]] + EscapeAll(t[1..])
  }

  /** A backslash keeps the character after it, whatever it is, inside quotes. */
  lemma {:induction false} EscapedQuotedBody(t: string, q: char, rest: string)
    requires IsQuote(q)
    ensures QuotedToken(EscapeAll(t) + [q] + rest, q) == Some((t, rest))
    decreases |t|
  {
    var s := EscapeAll(t) + [q] + rest;
    if t == [] {
      assert s == [q] + rest;
      assert s[1..] == rest;
    } else {
      assert s[0] == '\\' && s[1] == t[0];
      assert s[2..] == EscapeAll(t[1..]) + [q] + rest;
      assert QuotedToken(s, q) == PrependChars([t[0]], QuotedToken(s[2..], q));
      EscapedQuotedBody(t[1..], q, rest);
      assert [t[0]] + t[1..] == t;
    }
  }

  /** A backslash keeps the character after it, whatever it is, outside quotes. */
  lemma {:induction false} EscapedBareBody(t: string, rest: string)
    requires rest == [] || IsSpace(rest[0])
    ensures BareToken(EscapeAll(t) + rest) == (t, rest)
    decreases |t|
  {
    var s := EscapeAll(t) + rest;
    if t == [] {
      assert s == rest;
    } else {
      assert s[0] == '\\' && s[1] == t[0];
      assert s[2..] == EscapeAll(t[1..]) + rest;
      EscapedBareBody(t[1..], rest);
      assert [t[0]] + t[1..] == t;
    }
  }

  /** A backslash as the last character of the line is kept. */
  lemma {:induction false} TrailingBackslashKept(w: string)
    requires forall i :: 0 <= i < |w| ==> !IsSpace(w[i]) && w[i] != '\\'
    ensures BareToken(w + ['\\']) == (w + ['\\'], [])
    decreases |w|
  {
    var s := w + ['\\'];
    if w == [] {
      assert s == ['\\'] && s[1..] == [] && w + ['\\'] == s;
      assert !IsSpace('\\');
      assert BareToken(s) == ([s[0]] + BareToken([]).0, BareToken([]).1);
      assert BareToken([]) == ([], []);
      assert [s[0]] + [] == s;
    } else {
      assert s[0] == w[0] && s[1..] == w[1..] + ['\\'];
      TrailingBackslashKept(w[1..]);
      assert [w[0]] + (w[1..] + ['\\']) == s;
    }
  }

  /**
   * An unquoted stretch without whitespace and backslashes is one token, quote characters
   * included, and it ends at the first whitespace.
   */
  lemma {:induction false} BareLiteral(w: string, rest: string)
    requires forall i :: 0 <= i < |w| ==> !IsSpace(w[i]) && w[i] != '\\'
    requires rest == [] || IsSpace(rest[0])
    ensures BareToken(w + rest) == (w, rest)
    decreases |w|
  {
    var s := w + rest;
    if w == [] {
      assert s == rest;
    } else {
      assert s[0] == w[0] && s[1..] == w[1..] + rest;
      BareLiteral(w[1..], rest);
      assert [w[0]] + w[1..] == w;
    }
  }

  /**
   * An unquoted word without whitespace and backslashes is one token, quote characters after its
   * first character kept literally (`a"b` stays one token), and lexing resumes at the whitespace.
   */
  lemma BareWordRead(w: string, rest: string)
    requires w != [] && !IsQuote(w[0])
    requires forall i :: 0 <= i < |w| ==> !IsSpace(w[i]) && w[i] != '\\'
    requires rest == [] || IsSpace(rest[0])
    ensures Lex(w + rest) == Cons(w, Lex(rest))
  {
    BareLiteral(w, rest);
    assert (w + rest)[0] == w[0];
  }

  /** Unquoted tokens are never empty. */
  lemma BareTokenNonEmpty(s: string)
    requires s != [] && !IsSpace(s[0])
    ensures |BareToken(s).0| > 0
  {
  }

  /** A token made of characters the tokenizer treats as plain. */
  predicate Plain(t: string) {
    |t| > 0 && forall i :: 0 <= i < |t| ==> !IsSpace(t[i]) && !IsQuote(t[i]) && t[i] != '\\'
  }

  /** Tokens joined by single spaces. */
  function Join(ts: seq<string>): (r: string)
    ensures ts == [] ==> r == []
    ensures |ts| == 1 ==> r == ts[0]
  {
    if ts == [] then [] else if |ts| == 1 then ts[0] else ts[0] + [' '] + Join(ts[1..])
  }

  /** Splitting the single-space join of plain tokens gives the tokens back. */
  lemma {:induction false} SplitJoinRoundTrip(ts: seq<string>)
    requires forall k :: 0 <= k < |ts| ==> Plain(ts[k])
    ensures Lex(Join(ts)) == Tokens(ts)
    decreases |ts|
  {
    if ts == [] {
    } else {
      var t := ts[0];
      var rest := if |ts| == 1 then [] else [' '] + Join(ts[1..]);
      assert Join(ts) == t + rest;
      BareLiteral(t, rest);
      assert (t + rest)[0] == t[0];
      assert Lex(Join(ts)) == Cons(t, Lex(rest));
      if |ts| == 1 {
        assert ts == [t];
      } else {
        assert rest[1..] == Join(ts[1..]);
        SplitJoinRoundTrip(ts[1..]);
        assert Lex(rest) == Tokens(ts[1..]);
        assert [t] + ts[1..] == ts;
      }
    }
  }

  /** Any tokens at all survive being written quoted with every character escaped. */
  function QuoteAll(ts: seq<string>): string {
    if ts == [] then [] else ['"'] + EscapeAll(ts[0]) + ['"'] + QuoteAll(ts[1..])
  }

  lemma {:induction false} SplitQuoteAllRoundTrip(ts: seq<string>)
    ensures Lex(QuoteAll(ts)) == Tokens(ts)
    decreases |ts|
  {
    if ts != [] {
      var s := QuoteAll(ts);
      var tail := QuoteAll(ts[1..]);
      assert s[0] == '"';
      assert s[1..] == EscapeAll(ts[0]) + ['"'] + tail;
      EscapedQuotedBody(ts[0], '"', tail);
      SplitQuoteAllRoundTrip(ts[1..]);
      assert [ts[0]] + ts[1..] == ts;
    }
  }
}
