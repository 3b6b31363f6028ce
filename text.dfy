/** The string operations the pipeline takes from Python's `str` and `int`: strip, lower,
    split on whitespace, capitalize, lexicographic comparison, and decimal integers. */
module Text {
  import opened Wrappers

  /** The characters Python's `str.isspace` accepts, i.e. those `str.strip()` and
      `str.split()` treat as whitespace. */
  predicate IsSpace(c: char)
  {
    || 9 <= c as int <= 13
    || 28 <= c as int <= 32
    || c as int == 0x85 || c as int == 0xA0 || c as int == 0x1680
    || 0x2000 <= c as int <= 0x200A
    || c as int == 0x2028 || c as int == 0x2029 || c as int == 0x202F
    || c as int == 0x205F || c as int == 0x3000
  }

  /** Number of whitespace characters at the front of `s`. */
  function LeadingSpaces(s: string): (n: nat)
    ensures n <= |s|
    ensures forall k :: 0 <= k < n ==> IsSpace(s[k])
    ensures n < |s| ==> !IsSpace(s[n])
  {
    if s == [] || !IsSpace(s[0]) then 0 else 1 + LeadingSpaces(s[1..])
  }

  /** Number of whitespace characters at the end of `s`. */
  function TrailingSpaces(s: string): (n: nat)
    ensures n <= |s|
    ensures forall k :: |s| - n <= k < |s| ==> IsSpace(s[k])
    ensures n < |s| ==> !IsSpace(s[|s| - 1 - n])
  {
    if s == [] || !IsSpace(s[|s| - 1]) then 0 else 1 + TrailingSpaces(s[..|s| - 1])
  }

  /** `str.strip()`: `s` without its leading and trailing whitespace. */
  function Strip(s: string): (r: string)
    ensures |r| <= |s|
    ensures r != [] ==> !IsSpace(r[0]) && !IsSpace(r[|r| - 1])
  {
    var t := s[LeadingSpaces(s)..];
    t[..|t| - TrailingSpaces(t)]
  }

  /** Stripping keeps one contiguous slice `s[a..e]` of `s`: everything before `a` and from
      `e` on is whitespace, and the slice neither starts nor ends with whitespace. */
  lemma StripSpec(s: string) returns (a: nat, e: nat)
    ensures a <= e <= |s| && Strip(s) == s[a..e]
    ensures forall k :: 0 <= k < a ==> IsSpace(s[k])
    ensures forall k :: e <= k < |s| ==> IsSpace(s[k])
    ensures a < e ==> !IsSpace(s[a]) && !IsSpace(s[e - 1])
  {
    a := LeadingSpaces(s);
    var t := s[a..];
    var b := TrailingSpaces(t);
    e := |s| - b;
    SliceOfSuffix(s, a, |t| - b);
    TrailOfSuffix(s, a, b);
  }

  /** A prefix of a suffix is a middle slice. */
  lemma SliceOfSuffix(s: string, a: nat, n: nat)
    requires a + n <= |s|
    ensures s[a..][..n] == s[a..a + n]
  {
  }

  /** The whitespace that ends the suffix `s[a..]` ends `s` as well. */
  lemma TrailOfSuffix(s: string, a: nat, b: nat)
    requires a <= |s| && b == TrailingSpaces(s[a..])
    ensures forall k :: |s| - b <= k < |s| ==> IsSpace(s[k])
    ensures b < |s| - a ==> !IsSpace(s[|s| - 1 - b])
  {
    var t := s[a..];
    forall k | |s| - b <= k < |s| ensures IsSpace(s[k]) {
      assert s[k] == t[k - a];
    }
  }

  /** A string with no whitespace at either end is its own strip. */
  lemma StripTrimmed(s: string)
    requires s != [] ==> !IsSpace(s[0]) && !IsSpace(s[|s| - 1])
    ensures Strip(s) == s
  {
    assert LeadingSpaces(s) == 0;
    if s != [] {
      assert TrailingSpaces(s) == 0;
    }
  }

  /** `str.strip()` is idempotent. */
  lemma StripIdempotent(s: string)
    ensures Strip(Strip(s)) == Strip(s)
  {
    var a, e := StripSpec(s);
    StripTrimmed(Strip(s));
  }

  /** ASCII case folding of one character, as `str.lower` does on ASCII. */
  function LowerChar(c: char): char
  {
    if 'A' <= c <= 'Z' then (c as int + 32) as char else c
  }

  /** ASCII upper-casing of one character. */
  function UpperChar(c: char): char
  {
    if 'a' <= c <= 'z' then (c as int - 32) as char else c
  }

  /** `str.lower()`, restricted to ASCII letters. */
  function Lower(s: string): (r: string)
    ensures |r| == |s|
    ensures forall i :: 0 <= i < |s| ==> r[i] == LowerChar(s[i])
  {
    seq(|s|, i requires 0 <= i < |s| => LowerChar(s[i]))
  }

  /** Lower-casing twice is lower-casing once. */
  lemma LowerIdempotent(s: string)
    ensures Lower(Lower(s)) == Lower(s)
  {
  }

  /** `str.capitalize()`, restricted to ASCII letters: first character upper-cased, the rest
      lower-cased. */
  function Capitalize(s: string): (r: string)
    ensures |r| == |s|
    ensures Lower(r) == Lower(s)
    ensures r != [] ==> !('a' <= r[0] <= 'z')
    ensures forall i :: 1 <= i < |r| ==> !('A' <= r[i] <= 'Z')
  {
    if s == [] then [] else [UpperChar(s[0])] + Lower(s[1..])
  }

  /** Capitalizing depends only on the lower-cased string: two strings that differ only in
      case capitalize to the same string. */
  lemma {:induction false} CapitalizeIgnoresCase(s: string, t: string)
    requires Lower(s) == Lower(t)
    ensures Capitalize(s) == Capitalize(t)
  {
    if s != [] {
      assert LowerChar(s[0]) == LowerChar(t[0]);
      assert UpperChar(s[0]) == UpperChar(t[0]);
      assert Lower(s[1..]) == Lower(s)[1..] == Lower(t)[1..] == Lower(t[1..]);
    }
  }

  /** Number of non-whitespace characters at the front of `s`. */
  function WordLength(s: string): (n: nat)
    ensures n <= |s|
    ensures forall k :: 0 <= k < n ==> !IsSpace(s[k])
    ensures n < |s| ==> IsSpace(s[n])
  {
    if s == [] || IsSpace(s[0]) then 0 else 1 + WordLength(s[1..])
  }

  /** `str.split()` with no separator: the maximal runs of non-whitespace characters. */
  function Words(s: string): (r: seq<string>)
    ensures forall w :: w in r ==> w != [] && forall k :: 0 <= k < |w| ==> !IsSpace(w[k])
    decreases |s|
  {
    var a := LeadingSpaces(s);
    if a == |s| then [] else
      var t := s[a..];
      var n := WordLength(t);
      [t[..n]] + Words(t[n..])
  }

  /** Splitting ignores a whitespace-only string and returns a lone word as itself. */
  lemma {:induction false} WordsOfWord(w: string)
    requires w != [] && forall k :: 0 <= k < |w| ==> !IsSpace(w[k])
    ensures Words(w) == [w]
  {
    assert LeadingSpaces(w) == 0;
    assert w[0..] == w;
    assert WordLength(w) == |w| by { WordLengthAll(w); }
    assert w[|w|..] == [] && w[..|w|] == w;
    assert Words([]) == [];
    assert Words(w) == [w[..|w|]] + Words(w[|w|..]);
  }

  lemma {:induction false} WordLengthAll(w: string)
    requires forall k :: 0 <= k < |w| ==> !IsSpace(w[k])
    ensures WordLength(w) == |w|
  {
    if w != [] {
      WordLengthAll(w[1..]);
    }
  }

  /** A string made of whitespace only (possibly empty). */
  predicate AllSpace(g: string)
  {
    forall k :: 0 <= k < |g| ==> IsSpace(g[k])
  }

  /** A non-empty string without whitespace: what `split()` may return as one word. */
  predicate IsWord(w: string)
  {
    w != [] && forall k :: 0 <= k < |w| ==> !IsSpace(w[k])
  }

  /** `gs[0] + ws[0] + gs[1] + ws[1] + ... + ws[n-1] + gs[n]`. */
  function Interleave(gs: seq<string>, ws: seq<string>): string
    requires |gs| == |ws| + 1
    decreases |ws|
  {
    if ws == [] then gs[0] else gs[0] + ws[0] + Interleave(gs[1..], ws[1..])
  }

  /** `ws` are words and `gs` the whitespace around them: a gap between two words is not
      empty, the gaps at either end may be. */
  predicate Separates(gs: seq<string>, ws: seq<string>)
    decreases |ws|
  {
    && |gs| == |ws| + 1
    && AllSpace(gs[0])
    && (ws != [] ==> IsWord(ws[0]) && (|ws| > 1 ==> gs[1] != []) && Separates(gs[1..], ws[1..]))
  }

  /** The whitespace runs around the words of `s`, the leading one first. */
  function Gaps(s: string): (gs: seq<string>)
    ensures |gs| >= 1 && gs[0] == s[..LeadingSpaces(s)]
    decreases |s|
  {
    var a := LeadingSpaces(s);
    if a == |s| then [s] else
      var t := s[a..];
      var n := WordLength(t);
      [s[..a]] + Gaps(t[n..])
  }

  /** Every string is its `split()` words interleaved with whitespace gaps, non-empty between
      two words. */
  lemma {:induction false} WordsSplit(s: string)
    ensures Separates(Gaps(s), Words(s)) && Interleave(Gaps(s), Words(s)) == s
    decreases |s|
  {
    var a := LeadingSpaces(s);
    if a == |s| {
      assert Gaps(s) == [s] && Words(s) == [];
    } else {
      var t := s[a..];
      var n := WordLength(t);
      var rest := t[n..];
      WordsSplit(rest);
      var gs, ws := Gaps(s), Words(s);
      assert gs == [s[..a]] + Gaps(rest) && gs[1..] == Gaps(rest);
      assert ws == [t[..n]] + Words(rest) && ws[1..] == Words(rest);
      if Words(rest) != [] {
        assert rest != [];
        assert LeadingSpaces(rest) >= 1;
      }
      assert s == s[..a] + t[..n] + rest;
    }
  }

  /** Whitespace gaps around words, a gap between two words being non-empty, split back into
      exactly those words: `split()` returns the maximal whitespace-free runs, in order. */
  lemma {:induction false} WordsUnique(gs: seq<string>, ws: seq<string>)
    requires Separates(gs, ws)
    ensures Words(Interleave(gs, ws)) == ws
    decreases |ws|
  {
    if ws == [] {
      LeadingSpacesOf(gs[0], []);
      assert gs[0] + [] == gs[0];
    } else {
      var rest := Interleave(gs[1..], ws[1..]);
      WordsUnique(gs[1..], ws[1..]);
      StartsWithGap(gs[1..], ws[1..]);
      WordsCons(gs[0], ws[0], rest);
      assert ws == [ws[0]] + ws[1..];
    }
  }

  /** Splitting a gap, a word and a remainder that starts with whitespace (or is empty)
      yields the word followed by the words of the remainder. */
  lemma WordsCons(g: string, w: string, rest: string)
    requires AllSpace(g) && IsWord(w) && (rest == [] || IsSpace(rest[0]))
    ensures Words(g + w + rest) == [w] + Words(rest)
  {
    var s := g + w + rest;
    assert s == g + (w + rest);
    LeadingSpacesOf(g, w + rest);
    WordLengthOf(w, rest);
    var t := s[|g|..];
    assert t == w + rest;
    assert t[..|w|] == w && t[|w|..] == rest;
  }

  /** Gaps and words whose first gap is non-empty when a word follows start with whitespace. */
  lemma StartsWithGap(gs: seq<string>, ws: seq<string>)
    requires Separates(gs, ws) && (ws != [] ==> gs[0] != [])
    ensures Interleave(gs, ws) == [] || IsSpace(Interleave(gs, ws)[0])
  {
    if ws != [] {
      assert Interleave(gs, ws) == gs[0] + (ws[0] + Interleave(gs[1..], ws[1..]));
    }
  }

  lemma {:induction false} LeadingSpacesOf(g: string, x: string)
    requires AllSpace(g) && (x == [] || !IsSpace(x[0]))
    ensures LeadingSpaces(g + x) == |g|
  {
    if g != [] {
      assert (g + x)[1..] == g[1..] + x;
      LeadingSpacesOf(g[1..], x);
    } else {
      assert g + x == x;
    }
  }

  lemma {:induction false} WordLengthOf(w: string, x: string)
    requires (forall k :: 0 <= k < |w| ==> !IsSpace(w[k])) && (x == [] || IsSpace(x[0]))
    ensures WordLength(w + x) == |w|
  {
    if w != [] {
      assert (w + x)[1..] == w[1..] + x;
      WordLengthOf(w[1..], x);
    } else {
      assert w + x == x;
    }
  }

  /** Python's `<` on strings: lexicographic order of code points, a proper prefix first. */
  predicate Less(a: string, b: string)
    decreases |a|
  {
    if a == [] then b != []
    else if b == [] then false
    else if a[0] != b[0] then a[0] < b[0]
    else Less(a[1..], b[1..])
  }

  /** `a` and `b` agree before position `k`, where `a` has the smaller character. */
  predicate DiffersAt(a: string, b: string, k: int)
  {
    0 <= k < |a| && k < |b| && a[..k] == b[..k] && a[k] < b[k]
  }

  /** `a` is a proper prefix of `b`. */
  predicate ProperPrefix(a: string, b: string)
  {
    |a| < |b| && a == b[..|a|]
  }

  /** `Less` is the dictionary order: `a` is a proper prefix of `b`, or the two agree up to a
      position where `a` has the smaller character. */
  lemma LessSpec(a: string, b: string)
    ensures Less(a, b) <==> ProperPrefix(a, b) || exists k :: DiffersAt(a, b, k)
  {
    if Less(a, b) {
      var k := LessWitness(a, b);
    }
    if ProperPrefix(a, b) {
      PrefixLess(a, b);
    }
    if exists k :: DiffersAt(a, b, k) {
      var k :| DiffersAt(a, b, k);
      DiffersLess(a, b, k);
    }
  }

  lemma {:induction false} LessWitness(a: string, b: string) returns (k: int)
    requires Less(a, b)
    ensures ProperPrefix(a, b) || DiffersAt(a, b, k)
    decreases |a|
  {
    if a == [] {
      k := 0;
    } else if a[0] != b[0] {
      k := 0;
      assert a[..0] == b[..0];
    } else {
      var j := LessWitness(a[1..], b[1..]);
      k := j + 1;
      if DiffersAt(a[1..], b[1..], j) {
        assert a[..k] == [a[0]] + a[1..][..j] && b[..k] == [b[0]] + b[1..][..j];
      } else {
        assert a == [a[0]] + a[1..] && b[..|a|] == [b[0]] + b[1..][..|a| - 1];
      }
    }
  }

  lemma {:induction false} PrefixLess(a: string, b: string)
    requires ProperPrefix(a, b)
    ensures Less(a, b)
    decreases |a|
  {
    if a != [] {
      assert a[0] == b[0] && a[1..] == b[1..][..|a| - 1];
      PrefixLess(a[1..], b[1..]);
    }
  }

  lemma {:induction false} DiffersLess(a: string, b: string, k: int)
    requires DiffersAt(a, b, k)
    ensures Less(a, b)
    decreases k
  {
    if k > 0 {
      assert a[0] == a[..k][0] == b[..k][0] == b[0];
      assert a[1..][..k - 1] == a[..k][1..] && b[1..][..k - 1] == b[..k][1..];
      DiffersLess(a[1..], b[1..], k - 1);
    }
  }

  lemma {:induction false} LessIrreflexive(a: string)
    ensures !Less(a, a)
  {
    if a != [] {
      LessIrreflexive(a[1..]);
    }
  }

  lemma {:induction false} LessTransitive(a: string, b: string, c: string)
    requires Less(a, b) && Less(b, c)
    ensures Less(a, c)
  {
    if a != [] && b != [] && c != [] && a[0] == b[0] == c[0] {
      LessTransitive(a[1..], b[1..], c[1..]);
    }
  }

  lemma {:induction false} LessTotal(a: string, b: string)
    requires a != b
    ensures Less(a, b) || Less(b, a)
  {
    if a != [] && b != [] && a[0] == b[0] {
      assert a == [a[0]] + a[1..] && b == [b[0]] + b[1..];
      LessTotal(a[1..], b[1..]);
    }
  }

  predicate IsDigit(c: char)
  {
    '0' <= c <= '9'
  }

  predicate AllDigits(s: string)
  {
    forall k :: 0 <= k < |s| ==> IsDigit(s[k])
  }

  function DigitChar(d: nat): (c: char)
    requires d < 10
    ensures IsDigit(c) && c as int - '0' as int == d
  {
    ('0' as int + d) as char
  }

  /** The value of a string of decimal digits, most significant first. */
  function DigitsValue(s: string): nat
    requires AllDigits(s)
  {
    if s == [] then 0 else DigitsValue(s[..|s| - 1]) * 10 + (s[|s| - 1] as int - '0' as int)
  }

  /** The decimal digits of `n` without leading zeros, as `str(n)` writes them. */
  function NatToDigits(n: nat): (r: string)
    ensures r != [] && AllDigits(r)
    ensures |r| > 1 ==> r[0] != '0'
  {
    if n < 10 then [DigitChar(n)] else NatToDigits(n / 10) + [DigitChar(n % 10)]
  }

  /** Reading back the digits written for `n` gives `n`. */
  lemma {:induction false} DigitsRoundTrip(n: nat)
    ensures DigitsValue(NatToDigits(n)) == n
  {
    if n >= 10 {
      DigitsRoundTrip(n / 10);
      var r := NatToDigits(n);
      assert r[..|r| - 1] == NatToDigits(n / 10);
    }
  }

  /** `int(s)` on an already stripped string: an optional sign followed by one or more decimal
      digits; anything else is a `ValueError`, here `None`. */
  function ParseInt(s: string): (r: Option<int>)
    ensures r.Some? <==> (AllDigits(s) && s != []) || (|s| > 1 && (s[0] == '-' || s[0] == '+') && AllDigits(s[1..]))
  {
    if |s| > 1 && (s[0] == '-' || s[0] == '+') && AllDigits(s[1..]) then
      var v: int := DigitsValue(s[1..]);
      Some(if s[0] == '-' then -v else v)
    else if s != [] && AllDigits(s) then Some(DigitsValue(s))
    else None
  }

  /** `str(n)` for an integer. */
  function IntToString(n: int): (r: string)
    ensures r != [] && (AllDigits(r) || (r[0] == '-' && AllDigits(r[1..])))
  {
    if n < 0 then "-" + NatToDigits(-n) else NatToDigits(n)
  }

  /** `int(str(n)) == n`. */
  lemma IntRoundTrip(n: int)
    ensures ParseInt(IntToString(n)) == Some(n)
  {
    if n < 0 {
      DigitsRoundTrip(-n);
      ParseNegative(NatToDigits(-n));
    } else {
      DigitsRoundTrip(n);
      ParseDigits(NatToDigits(n));
    }
  }

  /** `int()` of a run of digits is their value. */
  lemma ParseDigits(ds: string)
    requires ds != [] && AllDigits(ds)
    ensures ParseInt(ds) == Some(DigitsValue(ds))
  {
    assert IsDigit(ds[0]);
  }

  /** `int()` of a minus sign and a run of digits is the negated value. */
  lemma ParseNegative(ds: string)
    requires ds != [] && AllDigits(ds)
    ensures ParseInt("-" + ds) == Some(-(DigitsValue(ds) as int))
  {
    var s := "-" + ds;
    assert s[1..] == ds;
  }
}
