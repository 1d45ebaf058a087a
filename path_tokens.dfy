/**
 * The path tokens of group and address templates (AddressableImportRegex in
 * the importer): `${PATH[n]}`, with an optional minus sign and one to three
 * decimal digits, stands for a '/'-separated segment of the asset path. The
 * index is wrapped into range with a modulus of segments - 1.
 */
module PathTokens {
  import opened Text

  /** One token occurrence: its text and the index it names. */
  datatype Token = Token(text: string, index: int)

  /**
   * A template cut at its tokens: what Regex.Split returns (`pieces`, the text
   * around the tokens) and what Regex.Matches returns (`tokens`), both in order.
   */
  datatype Scanned = Scanned(pieces: seq<string>, tokens: seq<Token>)

  const TokenOpen: string := "${PATH["
  const TokenClose: string := "]}"

  predicate IsDigit(c: char) {
    '0' <= c <= '9'
  }

  /** The number of decimal digits that `s` starts with. */
  function DigitRun(s: string): (n: nat)
    ensures n <= |s|
    ensures forall k :: 0 <= k < n ==> IsDigit(s[k])
    ensures n < |s| ==> !IsDigit(s[n])
    decreases |s|
  {
    if s != [] && IsDigit(s[0]) then
      var n := 1 + DigitRun(s[1..]);
      assert forall k :: 1 <= k < n ==> s[k] == s[1..][k - 1];
      n
    else 0
  }

  function Pow10(n: nat): nat {
    if n == 0 then 1 else 10 * Pow10(n - 1)
  }

  /** int.Parse of a run of decimal digits: less than 10^(number of digits). */
  function DecimalValue(ds: string): (v: nat)
    requires AllDigits(ds)
    ensures v < Pow10(|ds|)
    decreases |ds|
  {
    if ds == [] then 0
    else
      var last := ds[|ds| - 1];
      assert IsDigit(last);
      10 * DecimalValue(ds[..|ds| - 1]) + (last as int - '0' as int)
  }

  /**
   * What follows `${PATH[` in a token: an optional '-' and one to three
   * digits, closed by `]}`; a fourth digit spoils the token.
   */
  function SignAndDigits(after: string): (r: Option<(bool, string)>)
    ensures r.Some? ==>
      1 <= |r.value.1| <= 3 && AllDigits(r.value.1) &&
      StartsWith(after, SignText(r.value.0) + (r.value.1 + TokenClose))
  {
    var neg := after != [] && after[0] == '-';
    var sign := |SignText(neg)|;
    var n := DigitRun(after[sign..]);
    if 1 <= n <= 3 && StartsWith(after[sign + n..], TokenClose) then
      var ds := after[sign..sign + n];
      assert after[..sign] == SignText(neg);
      PrefixJoin(after[sign..], ds, TokenClose);
      PrefixJoin(after, SignText(neg), ds + TokenClose);
      Some((neg, ds))
    else None
  }

  /** The token that starts `s`, if one does: `${PATH[`, then what SignAndDigits accepts. */
  function TokenAt(s: string): (t: Option<Token>)
    ensures t.Some? ==> |TokenOpen| + |TokenClose| < |t.value.text| && StartsWith(s, t.value.text)
    ensures t.Some? ==> -999 <= t.value.index <= 999
  {
    if !StartsWith(s, TokenOpen) then None
    else
      var rest := s[|TokenOpen|..];
      var sign := if rest != [] && rest[0] == '-' then 1 else 0;
      var n := DigitRun(rest[sign..]);
      if 1 <= n <= 3 && StartsWith(rest[sign + n..], TokenClose) then
        var magnitude := DecimalValue(rest[sign..sign + n]);
        assert Pow10(1) == 10 && Pow10(2) == 100 && Pow10(3) == 1000;
        var len := |TokenOpen| + sign + n + |TokenClose|;
        Some(Token(s[..len], if sign == 1 then -(magnitude as int) else magnitude))
      else None
  }

  /**
   * Regex.Matches and Regex.Split with the token expression: the template is
   * scanned from the left; where a token starts it is taken whole, otherwise
   * the character is kept as text.
   */
  function Scan(t: string): (r: Scanned)
    ensures |r.pieces| == |r.tokens| + 1
    decreases |t|
  {
    if t == [] then Scanned([[]], [])
    else
      match TokenAt(t)
      case Some(tok) =>
        var rest := Scan(t[|tok.text|..]);
        Scanned([[]] + rest.pieces, [tok] + rest.tokens)
      case None =>
        var rest := Scan(t[1..]);
        Scanned([[t[0]] + rest.pieces[0]] + rest.pieces[1..], rest.tokens)
  }

  function Texts(tokens: seq<Token>): (texts: seq<string>)
    ensures |texts| == |tokens|
    ensures forall k :: 0 <= k < |tokens| ==> texts[k] == tokens[k].text
  {
    seq(|tokens|, k requires 0 <= k < |tokens| => tokens[k].text)
  }

  /** The pieces with the fills put between them, in order. */
  function Assemble(pieces: seq<string>, fills: seq<string>): string
    requires |pieces| == |fills| + 1
    decreases |fills|
  {
    if fills == [] then pieces[0] else pieces[0] + fills[0] + Assemble(pieces[1..], fills[1..])
  }

  lemma AssemblePrepend(c: string, pieces: seq<string>, fills: seq<string>)
    requires |pieces| == |fills| + 1
    ensures Assemble([c + pieces[0]] + pieces[1..], fills) == c + Assemble(pieces, fills)
  {
    var ps := [c + pieces[0]] + pieces[1..];
    if fills != [] {
      assert ps[1..] == pieces[1..];
    }
  }

  /** Scanning loses nothing: the pieces and the token texts rebuild the template. */
  lemma {:induction false} ScanRoundTrip(t: string)
    ensures Assemble(Scan(t).pieces, Texts(Scan(t).tokens)) == t
    decreases |t|
  {
    if t != [] {
      match TokenAt(t)
      case Some(tok) =>
        var rest := t[|tok.text|..];
        ScanRoundTrip(rest);
        AssembleToken(tok.text, rest, Scan(rest), tok);
        assert t == tok.text + rest;
      case None =>
        var r := Scan(t[1..]);
        ScanRoundTrip(t[1..]);
        AssemblePrepend([t[0]], r.pieces, Texts(r.tokens));
        assert t == [t[0]] + t[1..];
    }
  }

  /** A token in front adds an empty piece and its own text. */
  lemma AssembleToken(text: string, rest: string, r: Scanned, tok: Token)
    requires |r.pieces| == |r.tokens| + 1 && tok.text == text
    requires Assemble(r.pieces, Texts(r.tokens)) == rest
    ensures Assemble([[]] + r.pieces, Texts([tok] + r.tokens)) == text + rest
  {
    assert Texts([tok] + r.tokens) == [text] + Texts(r.tokens);
    assert ([[]] + r.pieces)[1..] == r.pieces;
  }

  /** A template in which no token starts anywhere scans as a single piece. */
  lemma {:induction false} NoTokenSinglePiece(t: string)
    requires forall k :: 0 <= k <= |t| ==> TokenAt(t[k..]).None?
    ensures Scan(t).tokens == []
    decreases |t|
  {
    if t != [] {
      assert t[0..] == t;
      forall k | 0 <= k <= |t[1..]| ensures TokenAt(t[1..][k..]).None? {
        assert t[1..][k..] == t[k + 1..];
      }
      NoTokenSinglePiece(t[1..]);
    }
  }

  predicate AllDigits(ds: string) {
    forall k :: 0 <= k < |ds| ==> IsDigit(ds[k])
  }

  /** The text of a token: `${PATH[`, a '-' when `neg`, the digits `ds`, then `]}`. */
  function TokenText(neg: bool, ds: string): string {
    TokenOpen + (SignText(neg) + (ds + TokenClose))
  }

  function SignText(neg: bool): string {
    if neg then "-" else ""
  }

  /** The index a token text names: the digits read in decimal, negated after a '-'. */
  function SignedValue(neg: bool, ds: string): int
    requires AllDigits(ds)
  {
    if neg then -(DecimalValue(ds) as int) else DecimalValue(ds)
  }

  /** DecimalValue reads its digits from the back; read from the front it gives the same number. */
  lemma {:induction false} DecimalValueLeading(d: char, ds: string)
    requires IsDigit(d) && AllDigits(ds)
    ensures DecimalValue([d] + ds) == (d as int - '0' as int) * Pow10(|ds|) + DecimalValue(ds)
    decreases |ds|
  {
    if ds != [] {
      var front := ds[..|ds| - 1];
      assert AllDigits([d] + ds) by {
        forall k | 0 <= k < |[d] + ds| ensures IsDigit(([d] + ds)[k]) {
          if k > 0 { assert ([d] + ds)[k] == ds[k - 1]; }
        }
      }
      var x := d as int - '0' as int;
      var last := ds[|ds| - 1] as int - '0' as int;
      var p := Pow10(|front|);
      assert AllDigits(front);
      DecimalValueLeading(d, front);
      assert ([d] + ds)[..|ds|] == [d] + front;
      assert ([d] + ds)[|ds|] == ds[|ds| - 1];
      assert DecimalValue([d] + ds) == 10 * DecimalValue([d] + front) + last;
      assert DecimalValue([d] + front) == x * p + DecimalValue(front);
      assert DecimalValue(ds) == 10 * DecimalValue(front) + last;
      assert Pow10(|ds|) == 10 * p;
      ScaleByTen(x, p);
    } else {
      assert ([d] + ds)[..0] == [];
    }
  }

  lemma ScaleByTen(x: int, p: int)
    ensures 10 * (x * p) == x * (10 * p)
  {
  }

  /** A run of digits followed by a non-digit is counted exactly. */
  lemma {:induction false} DigitRunOfDigits(ds: string, tail: string)
    requires AllDigits(ds) && (tail == [] || !IsDigit(tail[0]))
    ensures DigitRun(ds + tail) == |ds|
    decreases |ds|
  {
    if ds == [] {
      assert ds + tail == tail;
    } else {
      assert (ds + tail)[1..] == ds[1..] + tail;
      DigitRunOfDigits(ds[1..], tail);
    }
  }

  /**
   * Recognition: every `${PATH[`, optional '-', one to three digits, `]}` at
   * the front of a text is taken as a token, with the signed decimal value of
   * its digits as its index, whatever follows it.
   */
  lemma TokenAtRecognises(neg: bool, ds: string, rest: string)
    requires 1 <= |ds| <= 3 && AllDigits(ds)
    ensures TokenAt(TokenText(neg, ds) + rest) == Some(Token(TokenText(neg, ds), SignedValue(neg, ds)))
  {
    var text := TokenText(neg, ds);
    var s := text + rest;
    var sg := SignText(neg);
    var after := sg + (ds + (TokenClose + rest));
    assert StartsWith(s, TokenOpen) && s[|TokenOpen|..] == after by {
      assert s == TokenOpen + after;
    }
    SignAndDigitsOfToken(neg, ds, rest);
    TokenAtBySign(s);
  }

  /** TokenAt read as `${PATH[` followed by what SignAndDigits accepts. */
  lemma TokenAtBySign(s: string)
    ensures !StartsWith(s, TokenOpen) ==> TokenAt(s).None?
    ensures StartsWith(s, TokenOpen) ==>
      match SignAndDigits(s[|TokenOpen|..])
      case Some((neg, ds)) => TokenAt(s) == Some(Token(TokenText(neg, ds), SignedValue(neg, ds)))
      case None => TokenAt(s).None?
  {
    if StartsWith(s, TokenOpen) {
      var after := s[|TokenOpen|..];
      var neg := after != [] && after[0] == '-';
      var n := DigitRun(after[|SignText(neg)|..]);
      if 1 <= n <= 3 && StartsWith(after[|SignText(neg)| + n..], TokenClose) {
        var ds := after[|SignText(neg)|..|SignText(neg)| + n];
        assert SignAndDigits(after) == Some((neg, ds));
        PrefixJoin(s, TokenOpen, SignText(neg) + (ds + TokenClose));
        var len := |TokenOpen| + |SignText(neg)| + n + |TokenClose|;
        assert s[..len] == TokenText(neg, ds);
        var magnitude := DecimalValue(ds);
        assert (if |SignText(neg)| == 1 then -(magnitude as int) else magnitude) == SignedValue(neg, ds);
        assert TokenAt(s) == Some(Token(s[..len], if |SignText(neg)| == 1 then -(magnitude as int) else magnitude));
      }
    }
  }

  lemma SignAndDigitsOfToken(neg: bool, ds: string, rest: string)
    requires 1 <= |ds| <= 3 && AllDigits(ds)
    ensures SignAndDigits(SignText(neg) + (ds + (TokenClose + rest))) == Some((neg, ds))
  {
    var sg := SignText(neg);
    var after := sg + (ds + (TokenClose + rest));
    assert (after != [] && after[0] == '-') == neg by {
      if !neg {
        assert after[0] == ds[0];
      }
    }
    DropJoin(sg, ds, TokenClose + rest);
    DigitRunOfDigits(ds, TokenClose + rest);
    SignAndDigitsOf(after, neg, ds);
  }

  /** SignAndDigits accepts a sign, a run of one to three digits and the closing `]}`. */
  lemma SignAndDigitsOf(after: string, neg: bool, ds: string)
    requires (after != [] && after[0] == '-') == neg
    requires 1 <= |ds| <= 3 && DigitRun(after[|SignText(neg)|..]) == |ds|
    requires StartsWith(after[|SignText(neg)| + |ds|..], TokenClose)
    requires after[|SignText(neg)|..|SignText(neg)| + |ds|] == ds
    ensures SignAndDigits(after) == Some((neg, ds))
  {
  }

  /** Cutting a + (b + c) at the ends of a and of b. */
  lemma DropJoin(a: string, b: string, c: string)
    ensures (a + (b + c))[|a|..] == b + c
    ensures (a + (b + c))[|a| + |b|..] == c
    ensures (a + (b + c))[|a|..|a| + |b|] == b
  {
    assert (a + (b + c))[|a|..] == b + c;
    assert (b + c)[|b|..] == c;
  }

  /** A prefix `a` followed by a prefix `b` of what comes after it makes the prefix `a + b`. */
  lemma PrefixJoin(s: string, a: string, b: string)
    requires |a| <= |s| && s[..|a|] == a
    requires |b| <= |s| - |a| && s[|a|..][..|b|] == b
    ensures s[..|a| + |b|] == a + b
  {
    assert s[..|a| + |b|] == s[..|a|] + s[|a|..][..|b|];
  }

  /**
   * The converse: whatever TokenAt takes is such a token text at the front of
   * the input, and its index is the signed value of the digits.
   */
  lemma TokenAtShape(s: string)
    requires TokenAt(s).Some?
    ensures exists neg: bool, ds: string ::
      (1 <= |ds| <= 3 && AllDigits(ds) && StartsWith(s, TokenText(neg, ds)) &&
       TokenAt(s).value == Token(TokenText(neg, ds), SignedValue(neg, ds)))
  {
    TokenAtBySign(s);
    var (neg, ds) := SignAndDigits(s[|TokenOpen|..]).value;
    assert TokenAt(s).value == Token(TokenText(neg, ds), SignedValue(neg, ds));
  }

  /**
   * The leftmost scan Regex.Matches performs, as a reference definition of
   * its own, for a recogniser `found` that says which token, if any, starts
   * a text: the first piece is the text before the first position where a
   * token starts, no position inside it starts one, the first token is the
   * one found there, and the rest is again a leftmost scan of the text right
   * after that token.
   */
  predicate Leftmost(found: string -> Option<Token>, t: string, r: Scanned)
    decreases |r.tokens|
  {
    LeftmostHead(found, t, r) &&
    (r.tokens != [] ==>
      found(t[|r.pieces[0]|..]) == Some(r.tokens[0]) &&
      |r.pieces[0]| + |r.tokens[0].text| <= |t| &&
      Leftmost(found, t[|r.pieces[0]| + |r.tokens[0].text|..], Scanned(r.pieces[1..], r.tokens[1..])))
  }

  /** The first piece is a prefix of t in which no token starts; without tokens it is all of t. */
  predicate LeftmostHead(found: string -> Option<Token>, t: string, r: Scanned) {
    |r.pieces| == |r.tokens| + 1 &&
    |r.pieces[0]| <= |t| && r.pieces[0] == t[..|r.pieces[0]|] &&
    (forall k :: 0 <= k < |r.pieces[0]| ==> found(t[k..]).None?) &&
    (r.tokens == [] ==> r.pieces == [t])
  }

  /** Scan(t) is the leftmost scan of t for the recogniser TokenAt. */
  lemma {:induction false} ScanLeftmost(t: string)
    ensures Leftmost(TokenAt, t, Scan(t))
    decreases |t|
  {
    if t != [] {
      match TokenAt(t)
      case Some(tok) =>
        var rest := Scan(t[|tok.text|..]);
        ScanLeftmost(t[|tok.text|..]);
        assert ([[]] + rest.pieces)[1..] == rest.pieces;
        assert ([tok] + rest.tokens)[1..] == rest.tokens;
        assert t[0..] == t;
      case None =>
        var r := Scan(t[1..]);
        ScanLeftmost(t[1..]);
        assert Scan(t) == Scanned([[t[0]] + r.pieces[0]] + r.pieces[1..], r.tokens);
        LeftmostCons(TokenAt, t, r, Scan(t));
    }
  }

  /** A leading character that starts no token joins the first piece of the leftmost scan of the rest. */
  lemma LeftmostCons(found: string -> Option<Token>, t: string, r: Scanned, R: Scanned)
    requires t != [] && found(t).None? && Leftmost(found, t[1..], r)
    requires R == Scanned([[t[0]] + r.pieces[0]] + r.pieces[1..], r.tokens)
    ensures Leftmost(found, t, R)
  {
    LeftmostHeadCons(found, t, r);
    if r.tokens != [] {
      var p := r.pieces[0];
      var i := |p| + |r.tokens[0].text|;
      assert |R.pieces[0]| == |p| + 1;
      assert Scanned(R.pieces[1..], R.tokens[1..]) == Scanned(r.pieces[1..], r.tokens[1..]);
      DropShift(t, |p|, |R.pieces[0]|);
      DropShift(t, i, |R.pieces[0]| + |R.tokens[0].text|);
    }
  }

  lemma DropShift(t: string, n: nat, m: nat)
    requires m == n + 1 <= |t|
    ensures t[m..] == t[1..][n..]
  {
  }

  lemma LeftmostHeadCons(found: string -> Option<Token>, t: string, r: Scanned)
    requires t != [] && found(t).None? && LeftmostHead(found, t[1..], r)
    ensures LeftmostHead(found, t, Scanned([[t[0]] + r.pieces[0]] + r.pieces[1..], r.tokens))
  {
    var p := r.pieces[0];
    forall k | 0 <= k < |p| + 1
      ensures found(t[k..]).None?
    {
      if k > 0 {
        assert t[k..] == t[1..][k - 1..];
      } else {
        assert t[0..] == t;
      }
    }
    assert t[..|p| + 1] == [t[0]] + t[1..][..|p|];
    assert r.tokens == [] ==> [t[0]] + t[1..] == t;
  }

  /** No token is missed: a template yields tokens exactly when a token starts somewhere in it. */
  lemma ScanFindsTokens(t: string)
    ensures Scan(t).tokens == [] <==> forall k :: 0 <= k <= |t| ==> TokenAt(t[k..]).None?
  {
    ScanLeftmost(t);
    if Scan(t).tokens == [] {
      assert Scan(t).pieces[0] == t;
      assert TokenAt(t[|t|..]).None? by {
        assert t[|t|..] == [];
      }
    } else {
      var k := |Scan(t).pieces[0]|;
      assert TokenAt(t[k..]).Some?;
    }
  }

  /** String.Split('/') of the asset path. */
  function GetPathArray(path: string): (segments: seq<string>)
    ensures |segments| >= 1
  {
    Split(path, {'/'})
  }

  /** The segment at a position that is already in range. */
  function GetPathAtArray(path: string, idx: int): string
    requires 0 <= idx < |GetPathArray(path)|
  {
    GetPathArray(path)[idx]
  }

  /**
   * The index a token ends up with, for a path of len + 1 segments, in closed
   * form: an index in range stays; one above len wraps to ((idx - 1) mod len) + 1;
   * a negative one wraps to idx mod len. With no separator (len = 0) only the
   * index 0 has a value: the wrapping loops never end for any other.
   */
  function NormalizedIndex(idx: int, len: nat): (r: nat)
    requires len > 0 || idx == 0
    ensures r <= len
  {
    if len == 0 then 0
    else if idx > len then (idx - 1) % len + 1
    else if idx < 0 then idx % len
    else idx
  }

  lemma ModUnique(a: int, q: int, n: int, r: int)
    requires n > 0 && a == q * n + r && 0 <= r < n
    ensures a % n == r
  {
    var q', r' := a / n, a % n;
    assert a == n * q' + r';
    if q' < q {
      MulAtLeast(n, q - q');
      assert false;
    } else if q < q' {
      MulAtLeast(n, q' - q);
      assert false;
    }
  }

  lemma {:induction false} MulAtLeast(n: int, d: int)
    requires n > 0 && d >= 1
    ensures n * d >= n
    decreases d
  {
    if d > 1 {
      MulAtLeast(n, d - 1);
      assert n * d == n * (d - 1) + n;
    }
  }

  /**
   * The two wrapping loops of the token parser: subtract len while the index
   * is above len, then add len while it is negative.
   */
  method NormalizeIndex(idx0: int, len: nat) returns (idx: int)
    requires len > 0 || idx0 == 0
    ensures 0 <= idx <= len
    ensures idx == NormalizedIndex(idx0, len)
  {
    idx := idx0;
    ghost var q := 0;
    while idx > len
      invariant len > 0 || idx == 0
      invariant idx == idx0 - q * len
      invariant idx0 > len ==> idx > 0
      invariant idx0 <= len ==> idx == idx0
      decreases idx
    {
      idx := idx - len;
      q := q + 1;
    }
    while idx < 0
      invariant len > 0 || idx == 0
      invariant idx == idx0 - q * len
      invariant idx <= len
      invariant idx0 < 0 ==> idx < len
      invariant idx0 >= 0 ==> idx >= 0
      invariant idx0 > len ==> idx > 0
      invariant 0 <= idx0 <= len ==> idx == idx0
      decreases -idx
    {
      idx := idx + len;
      q := q - 1;
    }
    if idx0 > len {
      assert idx0 - 1 == q * len + (idx - 1);
      ModUnique(idx0 - 1, q, len, idx - 1);
      assert idx == NormalizedIndex(idx0, len);
    } else if idx0 < 0 {
      ModUnique(idx0, q, len, idx);
      assert idx == NormalizedIndex(idx0, len);
    }
  }

  /**
   * Index -1 lands on the last-but-one segment (position len - 1), not on the
   * last one (position len): negative indices do not count from the end.
   */
  lemma MinusOneIsNotLast(len: nat)
    requires len > 0
    ensures NormalizedIndex(-1, len) == len - 1
  {
    ModUnique(-1, -1, len, len - 1);
  }

  /** Indices one period apart name the same segment once they are above 0. */
  lemma {:induction false} WrapPeriod(idx: int, len: nat)
    requires len > 0 && idx > 0
    ensures NormalizedIndex(idx + len, len) == NormalizedIndex(idx, len)
  {
    if idx <= len {
      ModUnique(idx + len - 1, 1, len, idx - 1);
    } else {
      var r := (idx - 1) % len;
      var q := (idx - 1) / len;
      ModUnique(idx + len - 1, q + 1, len, r);
    }
  }

  /** The segment a token index resolves to; defined when the loops end. */
  function SegmentAt(path: string, idx: int): string
    requires |GetPathArray(path)| > 1 || idx == 0
  {
    var segments := GetPathArray(path);
    GetPathAtArray(path, NormalizedIndex(idx, |segments| - 1))
  }

  /**
   * The wrapping loops end for every token of the template: the path holds a
   * '/', or every index is 0.
   */
  predicate ExpansionTerminates(path: string, template: string) {
    |GetPathArray(path)| > 1 ||
    forall k :: 0 <= k < |Scan(template).tokens| ==> Scan(template).tokens[k].index == 0
  }

  function Resolved(path: string, tokens: seq<Token>): (segments: seq<string>)
    requires |GetPathArray(path)| > 1 || forall k :: 0 <= k < |tokens| ==> tokens[k].index == 0
    ensures |segments| == |tokens|
  {
    seq(|tokens|, k requires 0 <= k < |tokens| && (|GetPathArray(path)| > 1 || tokens[k].index == 0) =>
      SegmentAt(path, tokens[k].index))
  }

  /**
   * The expansion of a template against an asset path: the text around the
   * tokens, kept verbatim, interleaved with the segments the tokens resolve to.
   */
  function Expand(path: string, template: string): string
    requires ExpansionTerminates(path, template)
  {
    var scanned := Scan(template);
    Assemble(scanned.pieces, Resolved(path, scanned.tokens))
  }

  /**
   * AddressableImportRegex.ParsePath: the tokens of the replacement are
   * resolved against the asset path, then put back between the pieces.
   */
  method ParsePath(assetPath: string, replacement: string) returns (finalPath: string)
    requires ExpansionTerminates(assetPath, replacement)
    ensures finalPath == Expand(assetPath, replacement)
  {
    var scanned := Scan(replacement);
    var parsedMatches := ResolveMatches(assetPath, scanned.tokens);
    finalPath := AssemblePieces(scanned.pieces, parsedMatches);
  }

  /** The first loop of ParsePath: each token's index wrapped, then looked up. */
  method ResolveMatches(assetPath: string, matches: seq<Token>) returns (parsedMatches: array<string>)
    requires |GetPathArray(assetPath)| > 1 || forall k :: 0 <= k < |matches| ==> matches[k].index == 0
    ensures fresh(parsedMatches)
    ensures parsedMatches[..] == Resolved(assetPath, matches)
  {
    var slashSplit := GetPathArray(assetPath);
    var len := |slashSplit| - 1;
    parsedMatches := new string[|matches|];
    var i := 0;
    while i < |matches|
      invariant 0 <= i <= |matches|
      invariant forall k :: 0 <= k < i ==> parsedMatches[k] == SegmentAt(assetPath, matches[k].index)
    {
      var idx := NormalizeIndex(matches[i].index, len);
      parsedMatches[i] := GetPathAtArray(assetPath, idx);
      i := i + 1;
    }
  }

  /** The second loop of ParsePath: each piece, followed by its token's segment if any. */
  method AssemblePieces(splitpath: seq<string>, parsedMatches: array<string>) returns (finalPath: string)
    requires |splitpath| == parsedMatches.Length + 1
    ensures finalPath == Assemble(splitpath, parsedMatches[..])
  {
    ghost var fills := parsedMatches[..];
    finalPath := "";
    var i := 0;
    while i < |splitpath|
      invariant 0 <= i <= |splitpath|
      invariant i <= |fills| ==> finalPath + Assemble(splitpath[i..], fills[i..]) == Assemble(splitpath, fills)
      invariant i == |splitpath| ==> finalPath == Assemble(splitpath, fills)
    {
      AssembleStep(splitpath, fills, i);
      finalPath := finalPath + splitpath[i];
      if i < parsedMatches.Length {
        finalPath := finalPath + parsedMatches[i];
      }
      i := i + 1;
    }
  }

  /** One round of the assembling loop. */
  lemma AssembleStep(pieces: seq<string>, fills: seq<string>, i: nat)
    requires |pieces| == |fills| + 1 && i < |pieces|
    ensures i < |fills| ==>
      Assemble(pieces[i..], fills[i..]) == pieces[i] + fills[i] + Assemble(pieces[i + 1..], fills[i + 1..])
    ensures i == |fills| ==> Assemble(pieces[i..], fills[i..]) == pieces[i]
  {
    if i < |fills| {
      assert pieces[i..][1..] == pieces[i + 1..];
      assert fills[i..][1..] == fills[i + 1..];
    }
  }

  /** A template with no token anywhere in it is returned as it is. */
  lemma NoTokenTemplateUnchanged(path: string, template: string)
    requires forall k :: 0 <= k <= |template| ==> TokenAt(template[k..]).None?
    ensures ExpansionTerminates(path, template)
    ensures Expand(path, template) == template
  {
    NoTokenSinglePiece(template);
    ScanRoundTrip(template);
  }

  /** Every token resolves to one of the path's segments. */
  lemma ResolvedAreSegments(path: string, template: string)
    requires ExpansionTerminates(path, template)
    ensures forall k :: 0 <= k < |Scan(template).tokens| ==>
      Resolved(path, Scan(template).tokens)[k] in GetPathArray(path)
  {
  }

  /**
   * Splitting a path that was built from '/'-free segments gives those
   * segments back: the inverse direction of SplitJoin.
   */
  lemma {:induction false} PathArrayOfJoin(segments: seq<string>)
    requires |segments| >= 1
    requires forall k :: 0 <= k < |segments| ==> NoneOf(segments[k], {'/'})
    ensures GetPathArray(Join(segments, '/')) == segments
    decreases |segments|
  {
    if |segments| == 1 {
      NoSeparatorOnePart(segments[0], {'/'});
    } else {
      PathArrayOfJoin(segments[1..]);
      NoSeparatorOnePart(segments[0], {'/'});
      SplitAtSeparator(segments[0], '/', Join(segments[1..], '/'), {'/'});
      assert [segments[0]] + segments[1..] == segments;
    }
  }

  /**
   * On a path of at least two segments, index 0 names the first segment and
   * index -1 the last-but-one: the file name is reached with the index of the
   * last segment, never with -1.
   */
  lemma FirstAndMinusOne(segments: seq<string>)
    requires |segments| >= 2
    requires forall k :: 0 <= k < |segments| ==> NoneOf(segments[k], {'/'})
    ensures |GetPathArray(Join(segments, '/'))| == |segments|
    ensures SegmentAt(Join(segments, '/'), 0) == segments[0]
    ensures SegmentAt(Join(segments, '/'), -1) == segments[|segments| - 2]
    ensures SegmentAt(Join(segments, '/'), |segments| - 1) == segments[|segments| - 1]
  {
    PathArrayOfJoin(segments);
    MinusOneIsNotLast(|segments| - 1);
  }

  /** A token at the front of a template is taken whole, and scanning goes on after it. */
  lemma ScanAfterToken(neg: bool, ds: string, rest: string)
    requires 1 <= |ds| <= 3 && AllDigits(ds)
    ensures Scan(TokenText(neg, ds) + rest) ==
      Scanned([[]] + Scan(rest).pieces, [Token(TokenText(neg, ds), SignedValue(neg, ds))] + Scan(rest).tokens)
  {
    TokenAtRecognises(neg, ds, rest);
    assert (TokenText(neg, ds) + rest)[|TokenText(neg, ds)|..] == rest;
  }

  /** A character other than '$' at the front of a template is kept as text of the first piece. */
  lemma ScanAfterText(c: char, rest: string)
    requires c != TokenOpen[0]
    ensures Scan([c] + rest) == Scanned([[c] + Scan(rest).pieces[0]] + Scan(rest).pieces[1..], Scan(rest).tokens)
  {
    assert ([c] + rest)[1..] == rest;
    assert !StartsWith([c] + rest, TokenOpen) by {
      if |TokenOpen| <= |[c] + rest| {
        assert ([c] + rest)[..|TokenOpen|][0] == c;
      }
    }
  }

  /**
   * Group `${PATH[0]}_${PATH[-1]}` on `Assets/Foo/Bar/Baz.png`: the first
   * segment, the text between the tokens, then the last-but-one segment.
   */
  lemma ExpandFirstAndMinusOne()
    ensures ExpansionTerminates("Assets/Foo/Bar/Baz.png", "${PATH[0]}_${PATH[-1]}")
    ensures Expand("Assets/Foo/Bar/Baz.png", "${PATH[0]}_${PATH[-1]}") == "Assets_Bar"
  {
    TemplateText();
    ExampleScan();
    ExampleResolved();
    ExampleAssemble();
  }

  /** The two tokens of that example resolve to "Assets" and "Bar". */
  lemma ExampleResolved()
    ensures |GetPathArray("Assets/Foo/Bar/Baz.png")| > 1
    ensures Resolved("Assets/Foo/Bar/Baz.png", [Token(TokenText(false, "0"), 0), Token(TokenText(true, "1"), -1)]) ==
      ["Assets", "Bar"]
  {
    ExamplePath();
    ResolvedPair("Assets/Foo/Bar/Baz.png", Token(TokenText(false, "0"), 0), Token(TokenText(true, "1"), -1));
  }

  lemma ResolvedPair(path: string, first: Token, second: Token)
    requires |GetPathArray(path)| > 1
    ensures Resolved(path, [first, second]) == [SegmentAt(path, first.index), SegmentAt(path, second.index)]
  {
  }

  /** The pieces of that example around "Assets" and "Bar". */
  lemma ExampleAssemble()
    ensures Assemble([[], ['_'], []], ["Assets", "Bar"]) == "Assets_Bar"
  {
    var a, b := "Assets", "Bar";
    assert Assemble([[]], []) == [];
    assert Assemble([['_'], []], [b]) == ['_'] + b + [];
    assert Assemble([[], ['_'], []], [a, b]) == [] + a + (['_'] + b + []);
    ExampleResultText();
  }

  /** The path of that example: four segments, of which 0 and -1 pick "Assets" and "Bar". */
  lemma ExamplePath()
    ensures |GetPathArray("Assets/Foo/Bar/Baz.png")| == 4
    ensures SegmentAt("Assets/Foo/Bar/Baz.png", 0) == "Assets"
    ensures SegmentAt("Assets/Foo/Bar/Baz.png", -1) == "Bar"
  {
    var segments := ["Assets", "Foo", "Bar", "Baz.png"];
    assert Join(segments, '/') == "Assets/Foo/Bar/Baz.png";
    FirstAndMinusOne(segments);
  }

  /** The scan of that example's template: two tokens around the text "_". */
  lemma ExampleScan()
    ensures Scan(TokenText(false, "0") + (['_'] + TokenText(true, "1"))) ==
      Scanned([[], ['_'], []], [Token(TokenText(false, "0"), 0), Token(TokenText(true, "1"), -1)])
  {
    ExampleValues();
    ScanTokenTextToken(false, "0", '_', true, "1");
  }

  lemma ExampleValues()
    ensures AllDigits("0") && AllDigits("1")
    ensures SignedValue(false, "0") == 0 && SignedValue(true, "1") == -1
  {
  }

  /** A token, one character of text, and a second token. */
  lemma ScanTokenTextToken(neg: bool, ds: string, c: char, neg': bool, ds': string)
    requires 1 <= |ds| <= 3 && AllDigits(ds) && 1 <= |ds'| <= 3 && AllDigits(ds') && c != TokenOpen[0]
    ensures Scan(TokenText(neg, ds) + ([c] + TokenText(neg', ds'))) ==
      Scanned([[], [c], []], [Token(TokenText(neg, ds), SignedValue(neg, ds)), Token(TokenText(neg', ds'), SignedValue(neg', ds'))])
  {
    ScanTextToken(c, neg', ds');
    ScanAfterToken(neg, ds, [c] + TokenText(neg', ds'));
  }

  lemma ScanTextToken(c: char, neg: bool, ds: string)
    requires 1 <= |ds| <= 3 && AllDigits(ds) && c != TokenOpen[0]
    ensures Scan([c] + TokenText(neg, ds)) == Scanned([[c], []], [Token(TokenText(neg, ds), SignedValue(neg, ds))])
  {
    ScanOneToken(neg, ds);
    ScanAfterText(c, TokenText(neg, ds));
    assert [c] + [] == [c];
  }

  lemma ScanOneToken(neg: bool, ds: string)
    requires 1 <= |ds| <= 3 && AllDigits(ds)
    ensures Scan(TokenText(neg, ds)) == Scanned([[], []], [Token(TokenText(neg, ds), SignedValue(neg, ds))])
  {
    var tok := Token(TokenText(neg, ds), SignedValue(neg, ds));
    ScanAfterToken(neg, ds, []);
    assert TokenText(neg, ds) + [] == TokenText(neg, ds);
    assert Scan([]) == Scanned([[]], []);
    var none: string := [];
    assert [none] + [none] == [none, none] && [tok] + [] == [tok];
  }

  /** The result of that example, spelled out. */
  lemma ExampleResultText()
    ensures [] + "Assets" + (['_'] + "Bar" + []) == "Assets_Bar"
  {
  }

  /** The template of that example, written with TokenText. */
  lemma TemplateText()
    ensures TokenText(false, "0") + (['_'] + TokenText(true, "1")) == "${PATH[0]}_${PATH[-1]}"
  {
  }
}
