/**
 * The placeholder substitution engine: the scanner that finds the
 * non-overlapping `{digits}` tokens of a template left to right, the reducer
 * that interleaves the literal slices between them with the arguments the
 * tokens name, and the concatenation of the resulting segments.
 */
module Placeholder {
  import opened Wrappers

  // ---------------------------------------------------------------------
  // Decimal indices.
  // ---------------------------------------------------------------------

  /** `\d` without the unicode flag: an ASCII decimal digit. */
  predicate IsDigit(c: char) { '0' <= c <= '9' }

  predicate AllDigits(d: string) { forall i :: 0 <= i < |d| ==> IsDigit(d[i]) }

  /** `Number(v)` of a string of decimal digits, as an unbounded natural number. */
  function DecimalValue(d: string): nat
    requires AllDigits(d)
  {
    if d == [] then 0 else DecimalValue(d[..|d| - 1]) * 10 + (d[|d| - 1] as int - '0' as int)
  }

  /** The decimal numeral of `n`, without leading zeros. */
  function Decimal(n: nat): (r: string)
    ensures |r| >= 1 && AllDigits(r)
  {
    if n < 10 then [('0' as int + n) as char]
    else Decimal(n / 10) + [('0' as int + n % 10) as char]
  }

  /** Reading back the numeral of `n` gives `n`. */
  lemma {:induction false} DecimalRoundTrip(n: nat)
    ensures DecimalValue(Decimal(n)) == n
  {
    if n >= 10 {
      DecimalRoundTrip(n / 10);
      var d := Decimal(n);
      assert d[..|d| - 1] == Decimal(n / 10);
    }
  }

  /** A leading zero does not change an index: `{007}` names the same argument as `{7}`. */
  lemma {:induction false} LeadingZero(d: string)
    requires AllDigits(d)
    ensures AllDigits("0" + d) && DecimalValue("0" + d) == DecimalValue(d)
    decreases |d|
  {
    assert AllDigits("0" + d) by {
      forall i | 0 <= i < |"0" + d| ensures IsDigit(("0" + d)[i]) {
        if i > 0 { assert ("0" + d)[i] == d[i - 1]; }
      }
    }
    if d != [] {
      var e := "0" + d;
      assert e[..|e| - 1] == "0" + d[..|d| - 1];
      assert e[|e| - 1] == d[|d| - 1];
      LeadingZero(d[..|d| - 1]);
    }
  }

  // ---------------------------------------------------------------------
  // The scanner: `value.matchAll(/{(\d+)}/g)`.
  // ---------------------------------------------------------------------

  /** One match: its offset, its length (`item[0].length`) and its digit value (`Number(item[1])`). */
  datatype Token = Token(start: nat, len: nat, index: nat)

  function End(t: Token): nat { t.start + t.len }

  /** `s[p..q+1]` is `{`, one or more decimal digits, then `}`. */
  predicate PlaceholderAt(s: string, p: nat, q: int)
  {
    p + 1 < q < |s| && s[p] == '{' && AllDigits(s[p + 1..q]) && s[q] == '}'
  }

  /** The first index at or after `i` that does not hold a digit. */
  function DigitsEnd(s: string, i: nat): (j: nat)
    requires i <= |s|
    ensures i <= j <= |s| && AllDigits(s[i..j])
    ensures j < |s| ==> !IsDigit(s[j])
    decreases |s| - i
  {
    if i < |s| && IsDigit(s[i]) then DigitsEnd(s, i + 1) else i
  }

  /** The match of `{(\d+)}` that starts exactly at offset `p`, if there is one. */
  function MatchAt(s: string, p: nat): (r: Option<Token>)
    ensures r.Some? ==> && r.value.start == p && r.value.len >= 3
                        && PlaceholderAt(s, p, p + r.value.len - 1)
                        && r.value.index == DecimalValue(s[p + 1..p + r.value.len - 1])
  {
    if p < |s| && s[p] == '{' then
      var q := DigitsEnd(s, p + 1);
      if q > p + 1 && q < |s| && s[q] == '}' then Some(Token(p, q + 1 - p, DecimalValue(s[p + 1..q])))
      else None
    else None
  }

  /** A match starts at `p` exactly when the regular expression `{\d+}` matches there. */
  lemma MatchAtIff(s: string, p: nat)
    ensures MatchAt(s, p).Some? <==> exists q :: PlaceholderAt(s, p, q)
  {
    if p < |s| && s[p] == '{' {
      var q := DigitsEnd(s, p + 1);
      NoOtherClose(s, p, q);
      if MatchAt(s, p).Some? {
        assert PlaceholderAt(s, p, q);
      }
    }
  }

  /** Only the first non-digit after `{` can close a placeholder. */
  lemma NoOtherClose(s: string, p: nat, q: nat)
    requires p + 1 <= q <= |s| && AllDigits(s[p + 1..q]) && (q < |s| ==> !IsDigit(s[q]))
    ensures forall q' :: PlaceholderAt(s, p, q') ==> q' == q
  {
    forall q' | PlaceholderAt(s, p, q') ensures q' == q {
      if q < q' {
        assert false;
      }
    }
  }

  /** The tokens are in order, do not overlap, start at or after `from` and end by `n`. */
  predicate Fits(toks: seq<Token>, from: nat, n: nat)
    decreases |toks|
  {
    if toks == [] then from <= n
    else from <= toks[0].start && End(toks[0]) <= n && Fits(toks[1..], End(toks[0]), n)
  }

  /** The global scan from offset `p`: after a match resume at its end, otherwise one character on. */
  function Scan(s: string, p: nat): (r: seq<Token>)
    requires p <= |s|
    ensures Fits(r, p, |s|)
    ensures forall i :: 0 <= i < |r| ==> MatchAt(s, r[i].start) == Some(r[i])
    decreases |s| - p
  {
    if p == |s| then []
    else match MatchAt(s, p)
      case Some(t) => [t] + Scan(s, End(t))
      case None => Scan(s, p + 1)
  }

  /** No placeholder starts strictly inside another one. */
  lemma InsideNoMatch(s: string, t: Token, q: nat)
    requires MatchAt(s, t.start) == Some(t)
    requires t.start < q < End(t)
    ensures MatchAt(s, q).None?
  {
    var p, e := t.start, End(t) - 1;
    if q < e {
      assert s[p + 1..e][q - (p + 1)] == s[q];
    }
  }

  /** The scan misses no match: every offset from `p` on where a placeholder starts is some token's start. */
  lemma {:induction false} ScanComplete(s: string, p: nat, q: nat)
    requires p <= q < |s|
    requires MatchAt(s, q).Some?
    ensures exists i :: 0 <= i < |Scan(s, p)| && Scan(s, p)[i].start == q
    decreases |s| - p
  {
    match MatchAt(s, p)
    case Some(t) =>
      if q == p {
        assert Scan(s, p)[0].start == q;
      } else if q < End(t) {
        InsideNoMatch(s, t, q);
      } else {
        ScanComplete(s, End(t), q);
        var i :| 0 <= i < |Scan(s, End(t))| && Scan(s, End(t))[i].start == q;
        assert Scan(s, p)[i + 1] == Scan(s, End(t))[i];
      }
    case None =>
      ScanComplete(s, p + 1, q);
  }

  /** The scan finds nothing exactly when no placeholder starts at or after `p`. */
  lemma ScanEmptyIff(s: string, p: nat)
    requires p <= |s|
    ensures Scan(s, p) == [] <==> forall q :: p <= q < |s| ==> MatchAt(s, q).None?
  {
    if Scan(s, p) == [] {
      forall q | p <= q < |s| ensures MatchAt(s, q).None? {
        if MatchAt(s, q).Some? { ScanComplete(s, p, q); }
      }
    } else {
      var t := Scan(s, p)[0];
      assert MatchAt(s, t.start) == Some(t);
    }
  }

  /** `{}` and `{a}` are literal text, and in `{{0}` only the second brace opens a placeholder. */
  lemma ScanExamples()
    ensures Scan("{}", 0) == []
    ensures Scan("{a}", 0) == []
    ensures Scan("{{0}", 0) == [Token(1, 3, 0)]
  {
    assert MatchAt("{}", 0).None? by { assert DigitsEnd("{}", 1) == 1; }
    assert MatchAt("{a}", 0).None? by { assert DigitsEnd("{a}", 1) == 1; }
    assert MatchAt("{{0}", 0).None? by { assert DigitsEnd("{{0}", 1) == 1; }
    assert DigitsEnd("{{0}", 2) == 3;
    assert "{{0}"[2..3] == "0";
    assert MatchAt("{{0}", 1) == Some(Token(1, 3, 0));
  }

  // ---------------------------------------------------------------------
  // Arguments and segments.
  // ---------------------------------------------------------------------

  /** A call argument: a scalar (by its string form), `null`, `undefined`, or a rich element. */
  datatype Arg = Scalar(text: string) | Null | Undefined | Element(id: nat)

  /** An entry of the segment list: a string, or a rich element passed through. */
  datatype Segment = Str(s: string) | Elem(id: nat)

  /** `typeof a === "object"`: true of rich elements and of `null`. */
  predicate IsObject(a: Arg) { a.Null? || a.Element? }

  /** `args[n] ?? ""`: an out-of-range index, `null` and `undefined` all give the empty string. */
  function ArgAt(args: seq<Arg>, n: nat): (r: Segment)
    ensures r.Elem? <==> n < |args| && args[n].Element?
    ensures r.Str? && r.s != "" ==> n < |args| && args[n] == Scalar(r.s)
    ensures n < |args| && args[n].Scalar? ==> r == Str(args[n].text)
    ensures n >= |args| || args[n].Null? || args[n].Undefined? ==> r == Str("")
  {
    if n < |args| then
      match args[n]
      case Scalar(t) => Str(t)
      case Element(id) => Elem(id)
      case _ => Str("")
    else Str("")
  }

  /** `if (vs) data.data.push(vs)`: a slice is pushed only when it is not empty. */
  function Literal(x: string): seq<Segment>
  {
    if x == "" then [] else [Str(x)]
  }

  /** The segments for `toks` when the previous token ended at `from`: slice, argument, ..., trailing slice. */
  function Interleave(s: string, toks: seq<Token>, from: nat, args: seq<Arg>): (r: seq<Segment>)
    requires Fits(toks, from, |s|)
    ensures r == [] <==> toks == [] && from == |s|
    decreases |toks|
  {
    if toks == [] then Literal(s[from..])
    else Literal(s[from..toks[0].start]) + [ArgAt(args, toks[0].index)]
         + Interleave(s, toks[1..], End(toks[0]), args)
  }

  /** The end of token `j - 1`, where the slice before token `j` starts: 0 before the first token. */
  function EndBefore(toks: seq<Token>, j: nat): nat
    requires j <= |toks|
  {
    if j == 0 then 0 else End(toks[j - 1])
  }

  /** Every token of an ordered list starts after its predecessor ends and ends within the template. */
  lemma {:induction false} FitsAt(toks: seq<Token>, from: nat, n: nat, j: nat)
    requires Fits(toks, from, n) && j < |toks|
    ensures (if j == 0 then from else End(toks[j - 1])) <= toks[j].start
    ensures End(toks[j]) <= n
    decreases j
  {
    if j > 0 {
      FitsAt(toks[1..], End(toks[0]), n, j - 1);
      assert toks[1..][j - 1] == toks[j];
      if j > 1 { assert toks[1..][j - 2] == toks[j - 1]; }
    }
  }

  /** `value.slice(a, b)`: both ends clamped to the length; empty unless `a` is before `b`. */
  function Slice(s: string, a: nat, b: nat): (r: string)
    ensures a <= b <= |s| ==> r == s[a..b]
  {
    var lo := if a < |s| then a else |s|;
    var hi := if b < |s| then b else |s|;
    if lo < hi then s[lo..hi] else ""
  }

  /** `data.data` after the reducer has handled the first `i` matches (the trailing slice not yet pushed). */
  function Pushed(s: string, toks: seq<Token>, i: nat, args: seq<Arg>): (r: seq<Segment>)
    requires i <= |toks|
    ensures r == [] <==> i == 0
  {
    if i == 0 then []
    else
      Pushed(s, toks, i - 1, args) + Literal(Slice(s, EndBefore(toks, i - 1), toks[i - 1].start))
      + [ArgAt(args, toks[i - 1].index)]
  }

  /** `response.data`: what the reducer returns, the last step having pushed the trailing slice too. */
  function Segments(s: string, toks: seq<Token>, args: seq<Arg>): (r: seq<Segment>)
    ensures r == [] <==> toks == []
  {
    if toks == [] then []
    else Pushed(s, toks, |toks|, args) + Literal(Slice(s, End(toks[|toks| - 1]), |s|))
  }

  /** `if (vs) data.data.push(vs)`: the slice is pushed only when it is not empty. */
  method PushSlice(data: seq<Segment>, vs: string) returns (pushed: seq<Segment>)
    ensures pushed == data + Literal(vs)
    ensures vs == "" ==> pushed == data
  {
    pushed := data;
    if vs != "" {
      pushed := pushed + [Str(vs)];
    }
  }

  /** One reducer step: the slice from `start` and the argument extend the first `i` matches' pushes to `i + 1`. */
  lemma PushedNext(s: string, toks: seq<Token>, args: seq<Arg>, i: nat, data: seq<Segment>, start: nat, next: seq<Segment>)
    requires i < |toks| && data == Pushed(s, toks, i, args) && start == EndBefore(toks, i)
    requires next == data + Literal(Slice(s, start, toks[i].start)) + [ArgAt(args, toks[i].index)]
    ensures next == Pushed(s, toks, i + 1, args)
  {
  }

  /** The last reducer step also pushes the trailing slice, which completes the reducer's result. */
  lemma PushedLast(s: string, toks: seq<Token>, args: seq<Arg>, data: seq<Segment>, last: seq<Segment>)
    requires toks != [] && data == Pushed(s, toks, |toks|, args)
    requires last == data + Literal(Slice(s, End(toks[|toks| - 1]), |s|))
    ensures last == Segments(s, toks, args)
  {
  }

  /** The `match.reduce(...)` of `translateLanguage`: pushes into `data` and moves `prev` match by match. */
  method BuildSegments(s: string, toks: seq<Token>, args: seq<Arg>) returns (data: seq<Segment>)
    ensures data == Segments(s, toks, args)
  {
    data := [];
    var prev: Option<Token> := None;
    var i := 0;
    while i < |toks|
      invariant 0 <= i <= |toks|
      invariant prev == if i == 0 then None else Some(toks[i - 1])
      invariant i < |toks| ==> data == Pushed(s, toks, i, args)
      invariant i == |toks| ==> data == Segments(s, toks, args)
    {
      var item := toks[i];
      var start := if prev.Some? then End(prev.value) else 0;
      ghost var before := data;
      data := PushSlice(data, Slice(s, start, item.start));
      data := data + [ArgAt(args, item.index)];
      PushedNext(s, toks, args, i, before, start, data);
      prev := Some(item);
      if i == |toks| - 1 {
        var end := End(prev.value);
        ghost var pushed := data;
        data := PushSlice(data, Slice(s, end, |s|));
        PushedLast(s, toks, args, pushed, data);
      }
      i := i + 1;
    }
  }

  /** The string form of a segment, as `Array.prototype.join` produces it. */
  function TextOf(seg: Segment): string
  {
    match seg
    case Str(x) => x
    case Elem(_) => "[object Object]"
  }

  /** `segments.join("")`. */
  function Join(segs: seq<Segment>): (r: string)
    ensures segs == [] ==> r == ""
    ensures |segs| == 1 ==> r == TextOf(segs[0])
  {
    if segs == [] then "" else TextOf(segs[0]) + Join(segs[1..])
  }

  /**
   * Reference semantics: the template read left to right from `p`, with every
   * `{digits}` match replaced by the string form of the argument it names.
   */
  function Render(s: string, args: seq<Arg>, p: nat): (r: string)
    requires p <= |s|
    ensures p < |s| && s[p] != '{' ==> r != "" && r[0] == s[p]
    decreases |s| - p
  {
    if p == |s| then ""
    else match MatchAt(s, p)
      case Some(t) => TextOf(ArgAt(args, t.index)) + Render(s, args, End(t))
      case None => [s[p]] + Render(s, args, p + 1)
  }

  /** Where the template does not hold `{`, rendering copies the character and moves on by one. */
  lemma RenderSkip(s: string, args: seq<Arg>, p: nat)
    requires p < |s| && s[p] != '{'
    ensures Render(s, args, p) == [s[p]] + Render(s, args, p + 1)
  {
    assert MatchAt(s, p).None?;
  }

  /** A one-digit placeholder `{d}` at `p` is replaced by the text of argument `d`, and rendering resumes after it. */
  lemma RenderOneDigit(s: string, args: seq<Arg>, p: nat)
    requires p + 2 < |s| && s[p] == '{' && IsDigit(s[p + 1]) && s[p + 2] == '}'
    ensures Render(s, args, p) == TextOf(ArgAt(args, s[p + 1] as int - '0' as int)) + Render(s, args, p + 3)
  {
    var t := Token(p, 3, s[p + 1] as int - '0' as int);
    OneDigitMatch(s, p);
    assert Render(s, args, p) == TextOf(ArgAt(args, t.index)) + Render(s, args, End(t));
  }

  /** A one-digit placeholder naming a string argument is replaced by that string. */
  lemma RenderScalarDigit(s: string, args: seq<Arg>, p: nat, x: string)
    requires p + 2 < |s| && s[p] == '{' && IsDigit(s[p + 1]) && s[p + 2] == '}'
    requires s[p + 1] as int - '0' as int < |args| && args[s[p + 1] as int - '0' as int] == Scalar(x)
    ensures Render(s, args, p) == x + Render(s, args, p + 3)
  {
    RenderOneDigit(s, args, p);
  }

  /** A one-digit placeholder `{d}` at `p` is a match of length 3 whose index is `d`. */
  lemma OneDigitMatch(s: string, p: nat)
    requires p + 2 < |s| && s[p] == '{' && IsDigit(s[p + 1]) && s[p + 2] == '}'
    ensures MatchAt(s, p) == Some(Token(p, 3, s[p + 1] as int - '0' as int))
  {
    assert DigitsEnd(s, p + 2) == p + 2;
    assert DigitsEnd(s, p + 1) == p + 2;
    var d := s[p + 1..p + 2];
    assert DecimalValue(d) == s[p + 1] as int - '0' as int by {
      assert |d| == 1 && d[0] == s[p + 1] && d[..0] == [];
    }
  }

  /** A one-digit placeholder that ends the template renders as the text of the argument it names. */
  lemma RenderFinalDigit(s: string, args: seq<Arg>, p: nat)
    requires p + 3 == |s| && s[p] == '{' && IsDigit(s[p + 1]) && s[p + 2] == '}'
    ensures Render(s, args, p) == TextOf(ArgAt(args, s[p + 1] as int - '0' as int))
  {
    RenderOneDigit(s, args, p);
    assert Render(s, args, p + 3) == "";
  }

  /** No `{` between offsets `p` and `q`. */
  predicate NoBrace(s: string, p: nat, q: nat)
    requires p <= q <= |s|
  {
    forall k :: p <= k < q ==> s[k] != '{'
  }

  /** One character that is not `{` extends a copied run by one to the left. */
  lemma RenderPlainStep(s: string, args: seq<Arg>, p: nat, q: nat)
    requires p < q <= |s| && s[p] != '{'
    requires Render(s, args, p + 1) == s[p + 1..q] + Render(s, args, q)
    ensures Render(s, args, p) == s[p..q] + Render(s, args, q)
  {
    var rest := Render(s, args, q);
    RenderSkip(s, args, p);
    ConcatAssoc([s[p]], s[p + 1..q], rest);
    assert [s[p]] + s[p + 1..q] == s[p..q];
  }

  /** A run of template text without `{` is copied as it stands. */
  lemma {:induction false} RenderPlainRun(s: string, args: seq<Arg>, p: nat, q: nat)
    requires p <= q <= |s| && NoBrace(s, p, q)
    ensures Render(s, args, p) == s[p..q] + Render(s, args, q)
    decreases q - p
  {
    if p < q {
      assert s[p] != '{' && NoBrace(s, p + 1, q);
      RenderPlainRun(s, args, p + 1, q);
      RenderPlainStep(s, args, p, q);
    } else {
      assert s[p..q] == "";
    }
  }

  // ---------------------------------------------------------------------
  // Properties of the segment list.
  // ---------------------------------------------------------------------

  lemma {:induction false} JoinAppend(a: seq<Segment>, b: seq<Segment>)
    ensures Join(a + b) == Join(a) + Join(b)
  {
    if a != [] {
      assert (a + b)[0] == a[0] && (a + b)[1..] == a[1..] + b;
      JoinAppend(a[1..], b);
    } else {
      assert a + b == b;
    }
  }

  lemma JoinLiteral(x: string)
    ensures Join(Literal(x)) == x
  {
    if x != "" {
      assert Join([Str(x)]) == TextOf(Str(x)) + Join([]);
    }
  }

  /** Joining a slice followed by more segments: the slice's text, then theirs. */
  lemma JoinSlice(x: string, tail: seq<Segment>)
    ensures Join(Literal(x) + tail) == x + Join(tail)
  {
    JoinAppend(Literal(x), tail);
    JoinLiteral(x);
  }

  /** Starting the first slice earlier only prepends the skipped template text. */
  lemma {:induction false} GapShift(s: string, toks: seq<Token>, from: nat, q: nat, args: seq<Arg>)
    requires from <= q && Fits(toks, q, |s|)
    ensures Fits(toks, from, |s|)
    ensures Join(Interleave(s, toks, from, args)) == s[from..q] + Join(Interleave(s, toks, q, args))
  {
    if toks == [] {
      calc {
        Join(Interleave(s, toks, from, args));
        { JoinLiteral(s[from..]); }
        s[from..];
        { assert s[from..] == s[from..q] + s[q..]; }
        s[from..q] + s[q..];
        { JoinLiteral(s[q..]); }
        s[from..q] + Join(Interleave(s, toks, q, args));
      }
    } else {
      var t := toks[0];
      var tail := [ArgAt(args, t.index)] + Interleave(s, toks[1..], End(t), args);
      var skipped, kept := s[from..q], s[q..t.start];
      assert Fits(toks, from, |s|);
      calc {
        Join(Interleave(s, toks, from, args));
        { assert Interleave(s, toks, from, args) == Literal(s[from..t.start]) + tail;
          JoinSlice(s[from..t.start], tail); }
        s[from..t.start] + Join(tail);
        { assert s[from..t.start] == skipped + kept; }
        (skipped + kept) + Join(tail);
        { ConcatAssoc(skipped, kept, Join(tail)); }
        skipped + (kept + Join(tail));
        { assert Interleave(s, toks, q, args) == Literal(kept) + tail;
          JoinSlice(kept, tail); }
        skipped + Join(Interleave(s, toks, q, args));
      }
    }
  }

  /** At a match, both sides emit the argument's text and resume after the match. */
  lemma JoinStepMatch(s: string, args: seq<Arg>, p: nat, t: Token)
    requires p < |s| && MatchAt(s, p) == Some(t)
    ensures End(t) <= |s|
    ensures Join(Interleave(s, Scan(s, p), p, args))
         == TextOf(ArgAt(args, t.index)) + Join(Interleave(s, Scan(s, End(t)), End(t), args))
    ensures Render(s, args, p) == TextOf(ArgAt(args, t.index)) + Render(s, args, End(t))
  {
    assert End(t) <= |s|;
    var rest := Scan(s, End(t));
    var tail := Interleave(s, rest, End(t), args);
    var a := ArgAt(args, t.index);
    assert Scan(s, p) == [t] + rest;
    assert Interleave(s, [t] + rest, p, args) == [a] + tail by {
      assert ([t] + rest)[0] == t && ([t] + rest)[1..] == rest;
      assert s[p..t.start] == "";
    }
    assert Join([a] + tail) == TextOf(a) + Join(tail) by {
      assert ([a] + tail)[0] == a && ([a] + tail)[1..] == tail;
    }
  }

  /** Where no match starts, both sides emit the character and move on by one. */
  lemma JoinStepLiteral(s: string, args: seq<Arg>, p: nat)
    requires p < |s| && MatchAt(s, p).None?
    ensures Join(Interleave(s, Scan(s, p), p, args)) == [s[p]] + Join(Interleave(s, Scan(s, p + 1), p + 1, args))
    ensures Render(s, args, p) == [s[p]] + Render(s, args, p + 1)
  {
    var toks := Scan(s, p + 1);
    assert Scan(s, p) == toks;
    calc {
      Join(Interleave(s, toks, p, args));
      { GapShift(s, toks, p, p + 1, args); }
      s[p..p + 1] + Join(Interleave(s, toks, p + 1, args));
      { assert s[p..p + 1] == [s[p]]; }
      [s[p]] + Join(Interleave(s, toks, p + 1, args));
    }
  }

  /** The joined segments of the scan from `p` are the rendered template from `p`. */
  lemma {:induction false} InterleaveRenders(s: string, args: seq<Arg>, p: nat)
    requires p <= |s|
    ensures Join(Interleave(s, Scan(s, p), p, args)) == Render(s, args, p)
    decreases |s| - p
  {
    if p == |s| {
      RendersAtEnd(s, args);
    } else if MatchAt(s, p).Some? {
      MatchBounds(s, p);
      var q := End(MatchAt(s, p).value);
      InterleaveRenders(s, args, q);
      RendersAfterMatch(s, args, p);
    } else {
      InterleaveRenders(s, args, p + 1);
      RendersAfterLiteral(s, args, p);
    }
  }

  /** At the end of the template both sides are empty. */
  lemma RendersAtEnd(s: string, args: seq<Arg>)
    ensures Join(Interleave(s, Scan(s, |s|), |s|, args)) == Render(s, args, |s|)
  {
    assert Scan(s, |s|) == [];
  }

  /** A match at `p` ends after `p` and within the template. */
  lemma MatchBounds(s: string, p: nat)
    requires MatchAt(s, p).Some?
    ensures p < End(MatchAt(s, p).value) <= |s|
  {
  }

  /** At a token, agreement after it extends to agreement from its start. */
  lemma RendersAfterMatch(s: string, args: seq<Arg>, p: nat)
    requires p < |s| && MatchAt(s, p).Some? && End(MatchAt(s, p).value) <= |s|
    requires var q := End(MatchAt(s, p).value);
      Join(Interleave(s, Scan(s, q), q, args)) == Render(s, args, q)
    ensures Join(Interleave(s, Scan(s, p), p, args)) == Render(s, args, p)
  {
    JoinStepMatch(s, args, p, MatchAt(s, p).value);
  }

  /** Where no token starts, agreement from the next offset extends to agreement from this one. */
  lemma RendersAfterLiteral(s: string, args: seq<Arg>, p: nat)
    requires p < |s| && MatchAt(s, p).None?
    requires Join(Interleave(s, Scan(s, p + 1), p + 1, args)) == Render(s, args, p + 1)
    ensures Join(Interleave(s, Scan(s, p), p, args)) == Render(s, args, p)
  {
    JoinStepLiteral(s, args, p);
  }

  /** The reducer's suffix is well placed: the tokens from `i` on fit after the end of token `i - 1`. */
  lemma {:induction false} FitsSuffix(toks: seq<Token>, n: nat, i: nat)
    requires Fits(toks, 0, n) && i <= |toks|
    ensures Fits(toks[i..], EndBefore(toks, i), n)
    decreases i
  {
    if i > 0 {
      FitsSuffix(toks, n, i - 1);
      assert toks[i - 1..][0] == toks[i - 1] && toks[i - 1..][1..] == toks[i..];
    }
  }

  /** One token off the front of the alternation: its slice, its argument, then the alternation after it. */
  lemma InterleaveUncons(s: string, toks: seq<Token>, j: nat, from: nat, args: seq<Arg>)
    requires j < |toks| && Fits(toks[j..], from, |s|)
    ensures Fits(toks[j + 1..], End(toks[j]), |s|)
    ensures Interleave(s, toks[j..], from, args)
         == Literal(s[from..toks[j].start]) + [ArgAt(args, toks[j].index)] + Interleave(s, toks[j + 1..], End(toks[j]), args)
  {
    assert toks[j..][0] == toks[j] && toks[j..][1..] == toks[j + 1..];
  }

  /** One reducer step on an ordered list: the slice it pushes is the plain slice of the template. */
  lemma PushedStep(s: string, toks: seq<Token>, args: seq<Arg>, i: nat)
    requires Fits(toks, 0, |s|) && 0 < i <= |toks|
    ensures EndBefore(toks, i - 1) <= toks[i - 1].start <= |s|
    ensures Pushed(s, toks, i, args)
         == Pushed(s, toks, i - 1, args) + (Literal(s[EndBefore(toks, i - 1)..toks[i - 1].start]) + [ArgAt(args, toks[i - 1].index)])
  {
    FitsAt(toks, 0, |s|, i - 1);
    assert Slice(s, EndBefore(toks, i - 1), toks[i - 1].start) == s[EndBefore(toks, i - 1)..toks[i - 1].start];
  }

  /** What the reducer has pushed after `i` matches, followed by the alternation for the rest, is the whole alternation. */
  lemma {:induction false} PushedThenRest(s: string, toks: seq<Token>, args: seq<Arg>, i: nat)
    requires Fits(toks, 0, |s|) && i <= |toks|
    ensures Fits(toks[i..], EndBefore(toks, i), |s|)
    ensures Pushed(s, toks, i, args) + Interleave(s, toks[i..], EndBefore(toks, i), args) == Interleave(s, toks, 0, args)
    decreases i
  {
    FitsSuffix(toks, |s|, i);
    if i == 0 {
      assert toks[0..] == toks;
    } else {
      PushedThenRest(s, toks, args, i - 1);
      InterleaveUncons(s, toks, i - 1, EndBefore(toks, i - 1), args);
      PushedStep(s, toks, args, i);
      ConcatAssoc(Pushed(s, toks, i - 1, args),
                  Literal(s[EndBefore(toks, i - 1)..toks[i - 1].start]) + [ArgAt(args, toks[i - 1].index)],
                  Interleave(s, toks[i..], EndBefore(toks, i), args));
    }
  }

  /** When no argument index can give a rich element, neither can any entry of the alternation. */
  lemma {:induction false} InterleavePlain(s: string, toks: seq<Token>, from: nat, args: seq<Arg>)
    requires Fits(toks, from, |s|)
    requires forall n: nat :: ArgAt(args, n).Str?
    ensures forall k :: 0 <= k < |Interleave(s, toks, from, args)| ==> Interleave(s, toks, from, args)[k].Str?
    decreases |toks|
  {
    if toks != [] {
      InterleavePlain(s, toks[1..], End(toks[0]), args);
      var head: seq<Segment> := Literal(s[from..toks[0].start]) + [ArgAt(args, toks[0].index)];
      var tail: seq<Segment> := Interleave(s, toks[1..], End(toks[0]), args);
      assert Interleave(s, toks, from, args) == head + tail;
      forall k | 0 <= k < |head + tail|
        ensures (head + tail)[k].Str?
      {
        if k < |head| {
          assert (head + tail)[k] == head[k];
        } else {
          assert (head + tail)[k] == tail[k - |head|];
        }
      }
    }
  }

  /**
   * The segment list alternates with the template: slice before each token (from the previous
   * token's end, or 0), the token's argument, and after the last token the trailing slice.
   */
  lemma SegmentsAlternate(s: string, toks: seq<Token>, args: seq<Arg>)
    requires Fits(toks, 0, |s|) && toks != []
    ensures Segments(s, toks, args) == Interleave(s, toks, 0, args)
  {
    PushedThenRest(s, toks, args, |toks|);
    assert toks[|toks|..] == [];
    FitsAt(toks, 0, |s|, |toks| - 1);
    assert Slice(s, End(toks[|toks| - 1]), |s|) == s[End(toks[|toks| - 1])..];
  }

  /** When the template has a placeholder, joining the segments replaces every token by its argument's text. */
  lemma SegmentsRender(s: string, args: seq<Arg>)
    requires Scan(s, 0) != []
    ensures Join(Segments(s, Scan(s, 0), args)) == Render(s, args, 0)
  {
    SegmentsAlternate(s, Scan(s, 0), args);
    InterleaveRenders(s, args, 0);
  }

  /** A template without placeholders renders to itself. */
  lemma {:induction false} RenderNoMatch(s: string, args: seq<Arg>, p: nat)
    requires p <= |s|
    requires Scan(s, p) == []
    ensures Render(s, args, p) == s[p..]
    decreases |s| - p
  {
    if p < |s| {
      RenderNoMatch(s, args, p + 1);
      assert s[p..] == [s[p]] + s[p + 1..];
    }
  }

  /** A lone placeholder `{n}` renders to the text of argument `n` (empty when out of range). */
  lemma RenderToken(n: nat, args: seq<Arg>)
    ensures Render("{" + Decimal(n) + "}", args, 0) == TextOf(ArgAt(args, n))
  {
    var d := Decimal(n);
    var s := "{" + d + "}";
    assert s[1..|s| - 1] == d;
    DecimalRoundTrip(n);
    assert PlaceholderAt(s, 0, |s| - 1);
    var t := MatchAt(s, 0).value;
    NoOtherClose(s, 0, End(t) - 1);
  }

  /** Where the argument of token `i` sits in the alternation: after everything before it and after its own slice. */
  function ArgPos(s: string, toks: seq<Token>, from: nat, i: nat): nat
    requires Fits(toks, from, |s|) && i < |toks|
    decreases i
  {
    var here := |Literal(s[from..toks[0].start])|;
    if i == 0 then here else here + 1 + ArgPos(s, toks[1..], End(toks[0]), i - 1)
  }

  /** Later tokens have later places in the segment list. */
  lemma {:induction false} ArgPosIncreasing(s: string, toks: seq<Token>, from: nat, i: nat)
    requires Fits(toks, from, |s|) && i + 1 < |toks|
    ensures ArgPos(s, toks, from, i) < ArgPos(s, toks, from, i + 1)
    decreases i
  {
    if i > 0 {
      ArgPosIncreasing(s, toks[1..], End(toks[0]), i - 1);
    }
  }

  /** The `i`-th token's place in the segment list holds the argument its digits name, not argument `i`. */
  lemma {:induction false} InterleaveHasArgs(s: string, toks: seq<Token>, from: nat, args: seq<Arg>, i: nat)
    requires Fits(toks, from, |s|) && i < |toks|
    ensures ArgPos(s, toks, from, i) < |Interleave(s, toks, from, args)|
    ensures Interleave(s, toks, from, args)[ArgPos(s, toks, from, i)] == ArgAt(args, toks[i].index)
    decreases i
  {
    var head := Literal(s[from..toks[0].start]) + [ArgAt(args, toks[0].index)];
    var tail := Interleave(s, toks[1..], End(toks[0]), args);
    assert Interleave(s, toks, from, args) == head + tail;
    if i > 0 {
      var j := ArgPos(s, toks[1..], End(toks[0]), i - 1);
      assert ArgPos(s, toks, from, i) == |head| + j;
      assert j < |tail| && tail[j] == ArgAt(args, toks[i].index) by {
        InterleaveHasArgs(s, toks[1..], End(toks[0]), args, i - 1);
        assert toks[1..][i - 1] == toks[i];
      }
      assert (head + tail)[|head| + j] == tail[j];
    } else {
      assert (head + tail)[|head| - 1] == head[|head| - 1];
    }
  }

  /** The only empty strings in the segment list sit at tokens' places, as arguments that gave `""`: no slice is ever empty. */
  lemma {:induction false} EmptyOnlyFromArgs(s: string, toks: seq<Token>, from: nat, args: seq<Arg>, k: nat)
    requires Fits(toks, from, |s|)
    requires k < |Interleave(s, toks, from, args)| && Interleave(s, toks, from, args)[k] == Str("")
    ensures exists i :: 0 <= i < |toks| && k == ArgPos(s, toks, from, i) && ArgAt(args, toks[i].index) == Str("")
    decreases |toks|
  {
    if toks != [] {
      var lit := Literal(s[from..toks[0].start]);
      var head := lit + [ArgAt(args, toks[0].index)];
      var tail: seq<Segment> := Interleave(s, toks[1..], End(toks[0]), args);
      assert Interleave(s, toks, from, args) == head + tail;
      if k >= |head| {
        assert (head + tail)[k] == tail[k - |head|];
        EmptyOnlyFromArgs(s, toks[1..], End(toks[0]), args, k - |head|);
        var i :| 0 <= i < |toks[1..]| && k - |head| == ArgPos(s, toks[1..], End(toks[0]), i)
                 && ArgAt(args, toks[1..][i].index) == Str("");
        assert toks[1..][i] == toks[i + 1];
        assert k == ArgPos(s, toks, from, i + 1);
      } else if k < |lit| {
        assert false;
      } else {
        assert (head + tail)[k] == head[k];
        assert k == ArgPos(s, toks, from, 0);
      }
    }
  }

  /** A rich element reaches the segment list only at a token's place, through a token that names it. */
  lemma {:induction false} ElemOnlyFromArgs(s: string, toks: seq<Token>, from: nat, args: seq<Arg>, k: nat)
    requires Fits(toks, from, |s|)
    requires k < |Interleave(s, toks, from, args)| && Interleave(s, toks, from, args)[k].Elem?
    ensures exists i :: 0 <= i < |toks| && k == ArgPos(s, toks, from, i)
                        && toks[i].index < |args| && args[toks[i].index].Element?
    decreases |toks|
  {
    if toks != [] {
      var lit := Literal(s[from..toks[0].start]);
      var head := lit + [ArgAt(args, toks[0].index)];
      var tail: seq<Segment> := Interleave(s, toks[1..], End(toks[0]), args);
      assert Interleave(s, toks, from, args) == head + tail;
      if k >= |head| {
        assert (head + tail)[k] == tail[k - |head|];
        ElemOnlyFromArgs(s, toks[1..], End(toks[0]), args, k - |head|);
        var i :| 0 <= i < |toks[1..]| && k - |head| == ArgPos(s, toks[1..], End(toks[0]), i)
                 && toks[1..][i].index < |args| && args[toks[1..][i].index].Element?;
        assert toks[1..][i] == toks[i + 1];
        assert k == ArgPos(s, toks, from, i + 1);
      } else if k < |lit| {
        assert false;
      } else {
        assert (head + tail)[k] == head[k];
        assert k == ArgPos(s, toks, from, 0);
      }
    }
  }

  /** The tail of `{1} {0}` from offset 3: the space, then the second token's argument, which is argument 0. */
  lemma RenderSwappedTail(a: string, b: string)
    ensures Render("{1} {0}", [Scalar(a), Scalar(b)], 3) == " " + a
  {
    var s, args := "{1} {0}", [Scalar(a), Scalar(b)];
    RenderFinalDigit(s, args, 4);
    assert s[5] == '0' && ArgAt(args, 0) == Str(a);
    RenderSkip(s, args, 3);
  }

  /** The first token of `{1} {0}` renders as argument 1. */
  lemma RenderSwappedHead(a: string, b: string)
    ensures Render("{1} {0}", [Scalar(a), Scalar(b)], 0) == b + Render("{1} {0}", [Scalar(a), Scalar(b)], 3)
  {
    var s, args := "{1} {0}", [Scalar(a), Scalar(b)];
    assert s[1] == '1';
    RenderScalarDigit(s, args, 0, b);
  }

  /** `{1} {0}` with (a, b) renders as "b a": each token selects by its digits, not by its position. */
  lemma RenderSwapped(a: string, b: string)
    ensures Render("{1} {0}", [Scalar(a), Scalar(b)], 0) == b + " " + a
  {
    RenderSwappedHead(a, b);
    RenderSwappedTail(a, b);
    ConcatAssoc(b, " ", a);
  }

  /** The last token of `{0} and {0}`, at offset 8, renders as argument 0. */
  lemma RenderRepeatedLast(x: string)
    ensures Render("{0} and {0}", [Scalar(x)], 8) == x
  {
    var s, args := "{0} and {0}", [Scalar(x)];
    RenderFinalDigit(s, args, 8);
    assert s[9] == '0' && ArgAt(args, 0) == Str(x);
  }

  /** The tail of `{0} and {0}` from offset 3: the literal " and ", then the second token's argument. */
  lemma RenderRepeatedTail(x: string)
    ensures Render("{0} and {0}", [Scalar(x)], 3) == " and " + x
  {
    var s, args := "{0} and {0}", [Scalar(x)];
    RenderRepeatedLast(x);
    RenderPlainRun(s, args, 3, 8);
    assert s[3..8] == " and ";
  }

  /** `{0} and {0}` with (x) renders as "x and x": a repeated index re-emits its argument. */
  lemma RenderRepeated(x: string)
    ensures Render("{0} and {0}", [Scalar(x)], 0) == x + " and " + x
  {
    RenderOneDigit("{0} and {0}", [Scalar(x)], 0);
    RenderRepeatedTail(x);
  }

  /** `{5}` with at most five arguments renders as "": the index is past the arguments. */
  lemma RenderOutOfRange(args: seq<Arg>)
    requires |args| <= 5
    ensures Render("{5}", args, 0) == ""
  {
    RenderFinalDigit("{5}", args, 0);
    assert ArgAt(args, 5) == Str("");
  }
}
