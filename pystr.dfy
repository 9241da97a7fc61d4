/** The two Python `str` methods that the settings validators rely on:
    `str.split(sep)` with a one-character separator and `str.strip()` with no
    argument. `Join` (Python's `sep.join(pieces)`) is not called by the
    validators; it is the inverse against which `Split` is specified. */
module PyStr {

  /** Python's `str.isspace()` on one code point: the 29 characters that
      `str.strip()` with no argument removes. */
  predicate IsSpace(c: char) {
    ('\t' <= c <= '\r') || ('\U{001C}' <= c <= ' ')
    || c == '\U{0085}' || c == '\U{00A0}' || c == '\U{1680}'
    || ('\U{2000}' <= c <= '\U{200A}')
    || c == '\U{2028}' || c == '\U{2029}' || c == '\U{202F}'
    || c == '\U{205F}' || c == '\U{3000}'
  }

  predicate AllSpace(s: string) {
    forall k :: 0 <= k < |s| ==> IsSpace(s[k])
  }

  /** A string with no whitespace at either end: what `strip()` returns. */
  predicate IsStripped(s: string) {
    |s| == 0 || (!IsSpace(s[0]) && !IsSpace(s[|s| - 1]))
  }

  /** `m` is the infix of `s` at `i`, and everything around it is whitespace. */
  predicate PaddedAt(s: string, m: string, i: nat) {
    i + |m| <= |s| && s[i..i + |m|] == m
    && AllSpace(s[..i]) && AllSpace(s[i + |m|..])
  }

  /** `m` is `s` with a run of whitespace cut off each end. */
  ghost predicate IsPaddedBy(s: string, m: string) {
    exists i: nat :: PaddedAt(s, m, i)
  }

  /** Number of occurrences of `c` in `s` (Python's `s.count(c)`). */
  function Count(s: string, c: char): (n: nat)
    ensures n <= |s|
  {
    if |s| == 0 then 0
    else (if s[0] == c then 1 else 0) + Count(s[1..], c)
  }

  /** `Count` is the multiplicity of `c` in the multiset of characters. */
  lemma {:induction false} CountIsMultiplicity(s: string, c: char)
    ensures Count(s, c) == multiset(s)[c]
  {
    if |s| > 0 {
      CountIsMultiplicity(s[1..], c);
      assert s == [s[0]] + s[1..];
    }
  }

  /** `sep.join(pieces)`. */
  function Join(pieces: seq<string>, sep: char): string
  {
    if |pieces| == 0 then ""
    else if |pieces| == 1 then pieces[0]
    else pieces[0] + [sep] + Join(pieces[1..], sep)
  }

  /** `s.split(sep)` for a one-character `sep`: the pieces between the
      separators, empty pieces included, so there is always at least one. */
  function Split(s: string, sep: char): (r: seq<string>)
    ensures |r| == Count(s, sep) + 1
    ensures forall i :: 0 <= i < |r| ==> sep !in r[i]
    ensures Join(r, sep) == s
  {
    if |s| == 0 then [""]
    else
      var rest := Split(s[1..], sep);
      if s[0] == sep then
        [""] + rest
      else
        JoinPrepend(s[0], rest, sep);
        assert s == [s[0]] + s[1..];
        [[s[0]] + rest[0]] + rest[1..]
  }

  /** Putting a character in front of the first piece puts it in front of
      the joined string. */
  lemma JoinPrepend(c: char, pieces: seq<string>, sep: char)
    requires |pieces| > 0
    ensures Join([[c] + pieces[0]] + pieces[1..], sep) == [c] + Join(pieces, sep)
  {
    var first := [c] + pieces[0];
    if |pieces| > 1 {
      assert ([first] + pieces[1..])[1..] == pieces[1..];
    }
  }

  /** Length of the run of whitespace at the start of `s`. */
  function LeadingSpace(s: string): (n: nat)
    ensures n <= |s|
    ensures forall k :: 0 <= k < n ==> IsSpace(s[k])
    ensures n < |s| ==> !IsSpace(s[n])
  {
    if |s| > 0 && IsSpace(s[0]) then 1 + LeadingSpace(s[1..]) else 0
  }

  /** Length of the run of whitespace at the end of `s`. */
  function TrailingSpace(s: string): (n: nat)
    ensures n <= |s|
    ensures forall k :: |s| - n <= k < |s| ==> IsSpace(s[k])
    ensures n < |s| ==> !IsSpace(s[|s| - n - 1])
  {
    if |s| > 0 && IsSpace(s[|s| - 1]) then 1 + TrailingSpace(s[..|s| - 1]) else 0
  }

  /** `s.strip()`: the part of `s` left after cutting all whitespace off both
      ends. */
  function Strip(s: string): (r: string)
    ensures IsStripped(r)
    ensures IsPaddedBy(s, r)
  {
    var l := s[LeadingSpace(s)..];
    var r := l[..|l| - TrailingSpace(l)];
    assert PaddedAt(s, r, LeadingSpace(s));
    r
  }

  /** One step of `Split`: the first character either closes an empty piece
      or starts the first piece. */
  lemma SplitCons(c: char, t: string, sep: char)
    ensures var rest := Split(t, sep);
      Split([c] + t, sep) ==
        if c == sep then [""] + rest else [[c] + rest[0]] + rest[1..]
  {
    assert ([c] + t)[1..] == t;
  }

  /** Split is the one way of cutting `s` into separator-free pieces that
      join back to `s`. */
  lemma {:induction false} SplitUnique(s: string, sep: char, pieces: seq<string>)
    requires |pieces| > 0
    requires forall i :: 0 <= i < |pieces| ==> sep !in pieces[i]
    requires Join(pieces, sep) == s
    ensures Split(s, sep) == pieces
    decreases |s|
  {
    var p := pieces[0];
    var tail := pieces[1..];
    if p == "" {
      if |pieces| > 1 {
        assert s == [sep] + Join(tail, sep);
        SplitUnique(Join(tail, sep), sep, tail);
        SplitCons(sep, Join(tail, sep), sep);
        assert pieces == [""] + tail;
      }
    } else {
      var pieces' := [p[1..]] + tail;
      assert p == [p[0]] + p[1..];
      assert pieces'[1..] == tail;
      JoinPrepend(p[0], pieces', sep);
      assert [[p[0]] + pieces'[0]] + pieces'[1..] == pieces;
      assert sep !in p[1..];
      SplitUnique(Join(pieces', sep), sep, pieces');
      SplitCons(p[0], Join(pieces', sep), sep);
    }
  }

  /** A string with no separator in it is split into itself alone. */
  lemma SplitNoSeparator(s: string, sep: char)
    requires sep !in s
    ensures Split(s, sep) == [s]
  {
    SplitUnique(s, sep, [s]);
  }

  /** Joining two lists of pieces puts one separator between their joins. */
  lemma {:induction false} JoinAppend(p: seq<string>, q: seq<string>, sep: char)
    requires |p| > 0 && |q| > 0
    ensures Join(p + q, sep) == Join(p, sep) + [sep] + Join(q, sep)
  {
    assert (p + q)[0] == p[0];
    if |p| > 1 {
      assert (p + q)[1..] == p[1..] + q;
      JoinAppend(p[1..], q, sep);
    } else {
      assert (p + q)[1..] == q;
    }
  }

  /** Splitting `a + sep + b` splits `a` and `b` independently, in order. */
  lemma SplitAround(a: string, b: string, sep: char)
    ensures Split(a + [sep] + b, sep) == Split(a, sep) + Split(b, sep)
  {
    var ra, rb := Split(a, sep), Split(b, sep);
    JoinAppend(ra, rb, sep);
    assert forall i :: 0 <= i < |ra + rb| ==> sep !in (ra + rb)[i] by {
      forall i | 0 <= i < |ra + rb| ensures sep !in (ra + rb)[i] {
        if i < |ra| { assert (ra + rb)[i] == ra[i]; } else { assert (ra + rb)[i] == rb[i - |ra|]; }
      }
    }
    SplitUnique(a + [sep] + b, sep, ra + rb);
  }

  /** A stripped string is its own `strip()`, and only a stripped one is. */
  lemma StripFixedPoint(s: string)
    ensures Strip(s) == s <==> IsStripped(s)
  {
    if IsStripped(s) {
      StripUnique(s, s, 0);
    }
  }

  /** Whatever whitespace surrounds a stripped string, `strip()` recovers it. */
  lemma StripUnique(s: string, m: string, i: nat)
    requires PaddedAt(s, m, i) && IsStripped(m)
    ensures Strip(s) == m
  {
    var n := LeadingSpace(s);
    var l := s[n..];
    if |m| == 0 {
      assert forall k :: 0 <= k < |s| ==> IsSpace(s[k]) by {
        forall k | 0 <= k < |s| ensures IsSpace(s[k]) {
          if k < i { assert s[..i][k] == s[k]; } else { assert s[i..][k - i] == s[k]; }
        }
      }
      assert n == |s|;
    } else {
      assert s[i] == m[0];
      assert n == i;
      assert l == m + s[i + |m|..];
      var t := TrailingSpace(l);
      var j := |s| - (i + |m|);
      assert t == j;
    }
  }

  /** `strip()` is idempotent. */
  lemma StripIdempotent(s: string)
    ensures Strip(Strip(s)) == Strip(s)
  {
    StripFixedPoint(Strip(s));
  }

  /** `strip()` only removes characters: one absent from `s` is absent from
      the result. */
  lemma StripAddsNothing(s: string, c: char)
    requires c !in s
    ensures c !in Strip(s)
  {
    var i: nat :| PaddedAt(s, Strip(s), i);
    assert Strip(s) == s[i..i + |Strip(s)|];
  }
}
