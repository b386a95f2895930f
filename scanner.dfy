/**
 * The scanner (ast/scanner.py): a pattern string becomes a list of tokens.
 * A backslash escapes one of `\ ( ) * |`; outside escape mode the four
 * metacharacters `| * ( )` become Special tokens and every other character a literal.
 */
module Scanner {
  import opened Outcomes

  /** A token: a plain character (a Python `str`) or a metacharacter wrapped in `Special`. */
  datatype Token = Literal(c: char) | Special(c: char)

  /** `special` (ast/scanner.py:5) */
  const SpecialSymbols: set<char> := {'|', '*', '(', ')'}

  /** `escapedSymbols` (ast/scanner.py:7) */
  const EscapedSymbols: set<char> := {'\\', '(', ')', '*', '|'}

  /** The tokens the scanner can produce: a Special token always holds a metacharacter. */
  predicate WellFormed(t: Token) {
    t.Special? ==> t.c in SpecialSymbols
  }

  function Prepend(t: Token, r: Result<seq<Token>, ExpressionError>): Result<seq<Token>, ExpressionError> {
    if r.Ok? then Ok([t] + r.value) else r
  }

  function PrependAll(ts: seq<Token>, r: Result<seq<Token>, ExpressionError>): Result<seq<Token>, ExpressionError> {
    if r.Ok? then Ok(ts + r.value) else r
  }

  /**
   * What scanning the rest `s` of a pattern yields when the escape flag is `escaped`:
   * the tokens in input order, or the first error met from left to right.
   */
  function ScanFrom(s: string, escaped: bool): (r: Result<seq<Token>, ExpressionError>)
    ensures r.Ok? ==> |r.value| <= |s|
    ensures r.Ok? ==> forall t | t in r.value :: WellFormed(t)
    ensures r.Err? ==> r.error.BadEscapedSymbol? || r.error == UnexpectedEnd
    decreases |s|
  {
    if s == [] then
      if escaped then Err(UnexpectedEnd) else Ok([])
    else if escaped then
      if s[0] in EscapedSymbols then Prepend(Literal(s[0]), ScanFrom(s[1..], false))
      else Err(BadEscapedSymbol(s[0]))
    else if s[0] == '\\' then ScanFrom(s[1..], true)
    else if s[0] in SpecialSymbols then Prepend(Special(s[0]), ScanFrom(s[1..], false))
    else Prepend(Literal(s[0]), ScanFrom(s[1..], false))
  }

  lemma PrependNothing(r: Result<seq<Token>, ExpressionError>)
    ensures PrependAll([], r) == r
  {
    if r.Ok? {
      assert [] + r.value == r.value;
    }
  }

  lemma PrependAllStep(ts: seq<Token>, t: Token, r: Result<seq<Token>, ExpressionError>)
    ensures PrependAll(ts, Prepend(t, r)) == PrependAll(ts + [t], r)
  {
    if r.Ok? {
      assert ts + ([t] + r.value) == ts + [t] + r.value;
    }
  }

  lemma PrependPrependAll(t: Token, ts: seq<Token>, r: Result<seq<Token>, ExpressionError>)
    ensures Prepend(t, PrependAll(ts, r)) == PrependAll([t] + ts, r)
  {
    if r.Ok? {
      assert [t] + (ts + r.value) == [t] + ts + r.value;
    }
  }

  /** `scan`: one left-to-right pass with an escape flag. */
  method Scan(s: string) returns (r: Result<seq<Token>, ExpressionError>)
    ensures r == ScanFrom(s, false)
  {
    var tokens: seq<Token> := [];
    var escaped := false;
    var i := 0;
    assert s[0..] == s;
    PrependNothing(ScanFrom(s, false));
    while i < |s|
      invariant 0 <= i <= |s|
      invariant ScanFrom(s, false) == PrependAll(tokens, ScanFrom(s[i..], escaped))
    {
      var c := s[i];
      assert s[i..][0] == c && s[i..][1..] == s[i + 1..];
      if escaped {
        if c in EscapedSymbols {
          PrependAllStep(tokens, Literal(c), ScanFrom(s[i + 1..], false));
          tokens := tokens + [Literal(c)];
          escaped := false;
        } else {
          return Err(BadEscapedSymbol(c));
        }
      } else {
        if c == '\\' {
          escaped := true;
        } else if c in SpecialSymbols {
          PrependAllStep(tokens, Special(c), ScanFrom(s[i + 1..], false));
          tokens := tokens + [Special(c)];
        } else {
          PrependAllStep(tokens, Literal(c), ScanFrom(s[i + 1..], false));
          tokens := tokens + [Literal(c)];
          escaped := false;
        }
      }
      i := i + 1;
    }
    assert s[i..] == [];
    if escaped {
      return Err(UnexpectedEnd);
    }
    assert tokens + [] == tokens;
    return Ok(tokens);
  }

  /** The pattern text a token is read from: escapable literals carry their backslash. */
  function Spelling(t: Token): string {
    if t.Literal? && t.c in EscapedSymbols then ['\\', t.c] else [t.c]
  }

  /** The pattern a token list is read from: the inverse of scanning. */
  function Unscan(ts: seq<Token>): (s: string) {
    if ts == [] then [] else Spelling(ts[0]) + Unscan(ts[1..])
  }

  /** Number of literal tokens that were written with an escaping backslash. */
  function EscapedCount(ts: seq<Token>): nat {
    if ts == [] then 0
    else (if ts[0].Literal? && ts[0].c in EscapedSymbols then 1 else 0) + EscapedCount(ts[1..])
  }

  /** Scanning the spelling of one well-formed token yields that token, then whatever the rest yields. */
  lemma ScanSpelledOne(t: Token, tail: string)
    requires WellFormed(t)
    ensures ScanFrom(Spelling(t) + tail, false) == Prepend(t, ScanFrom(tail, false))
  {
    var s := Spelling(t) + tail;
    if t.Literal? && t.c in EscapedSymbols {
      assert s[1..] == [t.c] + tail && s[1..][1..] == tail;
      assert ScanFrom(s, false) == ScanFrom(s[1..], true);
    } else {
      assert s[0] == t.c && s[1..] == tail;
    }
  }

  /** Scanning text that spells well-formed tokens yields those tokens, then whatever the rest yields. */
  lemma {:induction false} ScanSpelledPrefix(ts: seq<Token>, rest: string)
    requires forall t | t in ts :: WellFormed(t)
    ensures ScanFrom(Unscan(ts) + rest, false) == PrependAll(ts, ScanFrom(rest, false))
  {
    if ts != [] {
      var t := ts[0];
      assert t in ts;
      ScanSpelledPrefix(ts[1..], rest);
      var tail := Unscan(ts[1..]) + rest;
      assert Unscan(ts) + rest == Spelling(t) + tail;
      ScanSpelledOne(t, tail);
      PrependPrependAll(t, ts[1..], ScanFrom(rest, false));
      assert ts == [t] + ts[1..];
    } else {
      assert Unscan(ts) + rest == rest;
      PrependNothing(ScanFrom(rest, false));
    }
  }

  /** Every well-formed token list is scanned back from its spelling. */
  lemma ScanUnscan(ts: seq<Token>)
    requires forall t | t in ts :: WellFormed(t)
    ensures ScanFrom(Unscan(ts), false) == Ok(ts)
  {
    ScanSpelledPrefix(ts, []);
    assert Unscan(ts) + [] == Unscan(ts);
    assert ts + [] == ts;
  }

  /** A successful scan loses nothing: the tokens spell the input (after a pending backslash). */
  lemma {:induction false} UnscanScanFrom(s: string, escaped: bool)
    requires ScanFrom(s, escaped).Ok?
    ensures Unscan(ScanFrom(s, escaped).value) == (if escaped then "\\" else "") + s
    decreases |s|
  {
    if s != [] {
      UnscanScanFrom(s[1..], !escaped && s[0] == '\\');
      assert s == [s[0]] + s[1..];
    }
  }

  /** Scanning is a bijection between accepted patterns and well-formed token lists. */
  lemma UnscanScan(s: string)
    requires ScanFrom(s, false).Ok?
    ensures Unscan(ScanFrom(s, false).value) == s
  {
    UnscanScanFrom(s, false);
  }

  lemma {:induction false} UnscanLength(ts: seq<Token>)
    ensures |Unscan(ts)| == |ts| + EscapedCount(ts)
  {
    if ts != [] {
      UnscanLength(ts[1..]);
    }
  }

  /** The token count is the input length minus the number of escaping backslashes. */
  lemma ScanCount(s: string)
    requires ScanFrom(s, false).Ok?
    ensures |ScanFrom(s, false).value| == |s| - EscapedCount(ScanFrom(s, false).value)
  {
    UnscanScan(s);
    UnscanLength(ScanFrom(s, false).value);
  }

  /** A backslash before a character outside `\ ( ) * |` is reported with that character. */
  lemma BadEscapeReported(ts: seq<Token>, c: char, rest: string)
    requires forall t | t in ts :: WellFormed(t)
    requires c !in EscapedSymbols
    ensures ScanFrom(Unscan(ts) + ['\\', c] + rest, false) == Err(BadEscapedSymbol(c))
  {
    ScanSpelledPrefix(ts, ['\\', c] + rest);
    assert Unscan(ts) + ['\\', c] + rest == Unscan(ts) + (['\\', c] + rest);
    var s := ['\\', c] + rest;
    assert s[1..] == [c] + rest;
  }

  /** A pattern that ends inside an escape is reported as an unexpected end. */
  lemma TrailingBackslashReported(ts: seq<Token>)
    requires forall t | t in ts :: WellFormed(t)
    ensures ScanFrom(Unscan(ts) + ['\\'], false) == Err(UnexpectedEnd)
  {
    ScanSpelledPrefix(ts, ['\\']);
    var s: string := ['\\'];
    assert s[1..] == [];
  }

  /** `s` is well-formed text followed by the bad escape or the trailing backslash that `e` reports. */
  predicate ErrorAt(s: string, e: ExpressionError, ts: seq<Token>, rest: string) {
    (forall t | t in ts :: WellFormed(t)) &&
    ((e == UnexpectedEnd && s == Unscan(ts) + ['\\']) ||
     (e.BadEscapedSymbol? && e.symbol !in EscapedSymbols && s == Unscan(ts) + ['\\', e.symbol] + rest))
  }

  /** A well-formed token spelled in front of an error shape gives an error shape with one more token. */
  lemma ErrorAtCons(tail: string, e: ExpressionError, t: Token, ts: seq<Token>, rest: string)
    requires WellFormed(t) && ErrorAt(tail, e, ts, rest)
    ensures ErrorAt(Spelling(t) + tail, e, [t] + ts, rest)
  {
    assert Unscan([t] + ts) == Spelling(t) + Unscan(ts) by {
      assert ([t] + ts)[1..] == ts;
    }
    assert forall x | x in [t] + ts :: WellFormed(x);
  }

  /** Every error comes from one of the two shapes above: nothing else is rejected. */
  lemma {:induction false} ScanErrorShape(s: string)
    requires ScanFrom(s, false).Err?
    ensures exists ts: seq<Token>, rest: string :: ErrorAt(s, ScanFrom(s, false).error, ts, rest)
    decreases |s|
  {
    var e := ScanFrom(s, false).error;
    assert s != [];
    if s[0] == '\\' {
      var s1 := s[1..];
      if s1 == [] {
        assert ErrorAt(s, e, [], []);
      } else if s1[0] in EscapedSymbols {
        var t := Literal(s1[0]);
        assert ScanFrom(s, false) == ScanFrom(s1, true) == Prepend(t, ScanFrom(s1[1..], false));
        ScanErrorShape(s1[1..]);
        var ts, rest :| ErrorAt(s1[1..], e, ts, rest);
        assert s == Spelling(t) + s1[1..];
        ErrorAtCons(s1[1..], e, t, ts, rest);
      } else {
        assert s == Unscan([]) + ['\\', s1[0]] + s1[1..];
        assert ErrorAt(s, e, [], s1[1..]);
      }
    } else {
      var t := if s[0] in SpecialSymbols then Special(s[0]) else Literal(s[0]);
      assert ScanFrom(s, false) == Prepend(t, ScanFrom(s[1..], false));
      ScanErrorShape(s[1..]);
      var ts, rest :| ErrorAt(s[1..], e, ts, rest);
      assert s == Spelling(t) + s[1..];
      ErrorAtCons(s[1..], e, t, ts, rest);
    }
  }
}
