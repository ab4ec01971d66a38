/**
  String helpers shared by the renderer and the main process: JavaScript's
  `String.prototype.trim`, the case-insensitive `^https?://` test, decimal
  rendering of numbers in template literals, and the `<stamp>-<serial>`
  identifiers both files build from `Date.now()` and a counter.
 */
module Text {
  import opened Options

  // ---------------------------------------------------------------------------
  // Whitespace and trimming
  // ---------------------------------------------------------------------------

  /** JavaScript's WhiteSpace and LineTerminator code points: what `trim` removes. */
  predicate IsSpace(c: char)
  {
    || c == '\t' || c == '\n' || c == '\U{000B}' || c == '\U{000C}' || c == '\r'
    || c == ' ' || c == '\U{00A0}' || c == '\U{1680}'
    || ('\U{2000}' <= c <= '\U{200A}')
    || c == '\U{2028}' || c == '\U{2029}' || c == '\U{202F}' || c == '\U{205F}'
    || c == '\U{3000}' || c == '\U{FEFF}'
  }

  predicate AllSpace(s: string)
  {
    forall i :: 0 <= i < |s| ==> IsSpace(s[i])
  }

  /** Neither end of `s` is whitespace. */
  predicate IsTrimmed(s: string)
  {
    |s| == 0 || (!IsSpace(s[0]) && !IsSpace(s[|s| - 1]))
  }

  /** How many whitespace characters `s` starts with. */
  function LeadingSpace(s: string): (n: nat)
    ensures n <= |s|
    ensures n < |s| ==> !IsSpace(s[n])
  {
    if |s| > 0 && IsSpace(s[0]) then 1 + LeadingSpace(s[1..]) else 0
  }

  /** How many whitespace characters `s` ends with. */
  function TrailingSpace(s: string): (n: nat)
    ensures n <= |s|
    ensures n < |s| ==> !IsSpace(s[|s| - 1 - n])
  {
    if |s| > 0 && IsSpace(s[|s| - 1]) then 1 + TrailingSpace(s[..|s| - 1]) else 0
  }

  /** The counted prefix is whitespace throughout. */
  lemma {:induction false} LeadingSpaceIsSpace(s: string)
    ensures AllSpace(s[..LeadingSpace(s)])
  {
    if |s| > 0 && IsSpace(s[0]) {
      LeadingSpaceIsSpace(s[1..]);
      assert s[..LeadingSpace(s)] == [s[0]] + s[1..][..LeadingSpace(s[1..])];
    }
  }

  /** The counted suffix is whitespace throughout. */
  lemma {:induction false} TrailingSpaceIsSpace(s: string)
    ensures AllSpace(s[|s| - TrailingSpace(s)..])
  {
    if |s| > 0 && IsSpace(s[|s| - 1]) {
      var p := s[..|s| - 1];
      TrailingSpaceIsSpace(p);
      assert s[|s| - TrailingSpace(s)..] == p[|p| - TrailingSpace(p)..] + [s[|s| - 1]];
    }
  }

  /** `s` with its leading whitespace removed. */
  function TrimStart(s: string): (r: string)
    ensures |r| <= |s|
    ensures |r| > 0 ==> !IsSpace(r[0])
  {
    s[LeadingSpace(s)..]
  }

  /** Unless `s` is all whitespace, its leading and trailing runs do not meet. */
  lemma SpaceRunsApart(s: string)
    requires LeadingSpace(s) < |s|
    ensures LeadingSpace(s) < |s| - TrailingSpace(s)
  {
    TrailingSpaceIsSpace(s);
  }

  /** `String.prototype.trim`: `s` is some whitespace, then the result, then some whitespace. */
  function Trim(s: string): (r: string)
    ensures IsTrimmed(r)
    ensures |r| <= |s|
    ensures exists k :: 0 <= k <= |s| - |r| && s[k..k + |r|] == r
                          && AllSpace(s[..k]) && AllSpace(s[k + |r|..])
  {
    var a := LeadingSpace(s);
    LeadingSpaceIsSpace(s);
    if a == |s| then
      assert s[a..a] == [];
      []
    else
      SpaceRunsApart(s);
      TrailingSpaceIsSpace(s);
      s[a..|s| - TrailingSpace(s)]
  }

  /** Whitespace on either side is all that `Trim` removes: the decomposition is unique. */
  lemma {:induction false} TrimPadded(w1: string, t: string, w2: string)
    requires AllSpace(w1) && AllSpace(w2) && IsTrimmed(t)
    ensures Trim(w1 + t + w2) == t
  {
    var s := w1 + t + w2;
    if |t| == 0 {
      assert s == w1 + w2;
      LeadingAllSpace(w1 + w2);
    } else {
      assert s == w1 + (t + w2);
      LeadingPadded(w1, t + w2);
      assert s == (w1 + t) + w2;
      TrailingPadded(w1 + t, w2);
      assert s[|w1|..|w1| + |t|] == t;
    }
  }

  lemma {:induction false} LeadingAllSpace(w: string)
    requires AllSpace(w)
    ensures LeadingSpace(w) == |w|
  {
    if |w| > 0 {
      LeadingAllSpace(w[1..]);
    }
  }

  lemma TrimStartPadded(w: string, u: string)
    requires AllSpace(w)
    requires |u| == 0 || !IsSpace(u[0])
    ensures TrimStart(w + u) == u
  {
    LeadingPadded(w, u);
    assert (w + u)[|w|..] == u;
  }

  lemma {:induction false} LeadingPadded(w: string, u: string)
    requires AllSpace(w)
    requires |u| == 0 || !IsSpace(u[0])
    ensures LeadingSpace(w + u) == |w|
  {
    if |w| > 0 {
      assert (w + u)[1..] == w[1..] + u;
      LeadingPadded(w[1..], u);
    } else {
      assert w + u == u;
    }
  }

  lemma {:induction false} TrailingPadded(u: string, w: string)
    requires AllSpace(w)
    requires |u| == 0 || !IsSpace(u[|u| - 1])
    ensures TrailingSpace(u + w) == |w|
  {
    if |w| > 0 {
      assert (u + w)[..|u + w| - 1] == u + w[..|w| - 1];
      TrailingPadded(u, w[..|w| - 1]);
    } else {
      assert u + w == u;
    }
  }

  /** Trimming twice is trimming once. */
  lemma TrimIdempotent(s: string)
    ensures Trim(Trim(s)) == Trim(s)
  {
    TrimPadded([], Trim(s), []);
    assert [] + Trim(s) + [] == Trim(s);
  }

  // ---------------------------------------------------------------------------
  // The case-insensitive `^https?:\/\/` test
  // ---------------------------------------------------------------------------

  /**
    ASCII lower-casing. A non-Unicode case-insensitive regular expression never
    lets a non-ASCII character match an ASCII one, so this is all the folding
    the scheme test needs.
   */
  function FoldAscii(c: char): char
  {
    if 'A' <= c <= 'Z' then (c as int + 32) as char else c
  }

  /** `s` starts with the lower-case pattern `p`, ignoring ASCII case. */
  predicate StartsWithFolded(s: string, p: string)
  {
    |p| <= |s| && forall i :: 0 <= i < |p| ==> FoldAscii(s[i]) == p[i]
  }

  /** `/^https?:\/\//i.test(s)`. */
  predicate HasHttpScheme(s: string)
  {
    StartsWithFolded(s, "http://") || StartsWithFolded(s, "https://")
  }

  const SecurePrefix := "https://"

  /** The test ignores ASCII case: strings that fold alike pass or fail it together. */
  lemma SchemeIgnoresCase(s: string, t: string)
    requires |s| == |t| && forall i :: 0 <= i < |s| ==> FoldAscii(s[i]) == FoldAscii(t[i])
    ensures HasHttpScheme(s) <==> HasHttpScheme(t)
  {
  }

  /**
    Both schemes pass whatever follows them and in any case; a scheme other
    than http(s), or one slash short, fails.
   */
  lemma SchemeExamples(rest: string)
    ensures HasHttpScheme("http://" + rest) && HasHttpScheme(SecurePrefix + rest)
    ensures HasHttpScheme("HTTPS://" + rest) && HasHttpScheme("hTtP://" + rest)
    ensures !HasHttpScheme("ftp://" + rest) && !HasHttpScheme("https:/") && !HasHttpScheme("example.com")
  {
    assert !StartsWithFolded("https:/", "https://");
    assert FoldAscii("https:/"[4]) != "http://"[4];
    assert ("ftp://" + rest)[0] == 'f';
    assert "example.com"[0] == 'e';
  }

  /**
    The scheme step both files share: `s` itself when it already names an
    http(s) scheme, otherwise `s` behind "https://".
   */
  function WithScheme(s: string): (r: string)
    ensures HasHttpScheme(r)
    ensures r == s <==> HasHttpScheme(s)
    ensures !HasHttpScheme(s) ==> r == SecurePrefix + s
    ensures |s| <= |r| && r[|r| - |s|..] == s
  {
    if HasHttpScheme(s) then s else SecurePrefix + s
  }

  /** Prefixing is idempotent: a string that went through it once is left alone. */
  lemma WithSchemeIdempotent(s: string)
    ensures WithScheme(WithScheme(s)) == WithScheme(s)
  {
  }

  /** A trimmed, non-empty string stays trimmed behind the scheme. */
  lemma WithSchemeTrimmed(s: string)
    requires IsTrimmed(s) && |s| > 0
    ensures IsTrimmed(WithScheme(s)) && Trim(WithScheme(s)) == WithScheme(s)
  {
    var r := WithScheme(s);
    assert r[|r| - 1] == s[|s| - 1];
    TrimPadded([], r, []);
    assert [] + r + [] == r;
  }

  // ---------------------------------------------------------------------------
  // Decimal numbers
  // ---------------------------------------------------------------------------

  predicate IsDigit(c: char)
  {
    '0' <= c <= '9'
  }

  predicate AllDigits(s: string)
  {
    forall i :: 0 <= i < |s| ==> IsDigit(s[i])
  }

  function DigitChar(d: nat): (c: char)
    requires d < 10
    ensures IsDigit(c) && c as int - '0' as int == d
  {
    ('0' as int + d) as char
  }

  /** A non-negative integer as a template literal renders it (plain decimal). */
  function Dec(n: nat): (s: string)
    ensures |s| >= 1 && AllDigits(s)
  {
    if n < 10 then [DigitChar(n)] else Dec(n / 10) + [DigitChar(n % 10)]
  }

  /** The value of a string of decimal digits (0 for the empty string). */
  function DecValue(s: string): nat
    requires AllDigits(s)
  {
    if |s| == 0 then 0
    else DecValue(s[..|s| - 1]) * 10 + (s[|s| - 1] as int - '0' as int)
  }

  /** Reading back what `Dec` wrote gives the number. */
  lemma {:induction false} DecRoundTrip(n: nat)
    ensures DecValue(Dec(n)) == n
  {
    if n >= 10 {
      var s := Dec(n);
      assert s[..|s| - 1] == Dec(n / 10);
      DecRoundTrip(n / 10);
    }
  }

  /** Distinct numbers render differently. */
  lemma DecInjective(a: nat, b: nat)
    ensures Dec(a) == Dec(b) <==> a == b
  {
    DecRoundTrip(a);
    DecRoundTrip(b);
  }

  // ---------------------------------------------------------------------------
  // "<stamp>-<serial>" identifiers
  // ---------------------------------------------------------------------------

  /** The identifier `${stamp}-${serial}` built from a clock reading and a counter. */
  function Stamped(stamp: nat, serial: nat): string
  {
    Dec(stamp) + "-" + Dec(serial)
  }

  /** The index of the first `c` in `s`, or `|s|` when there is none. */
  function IndexOf(s: string, c: char): (k: nat)
    ensures k <= |s|
    ensures forall j :: 0 <= j < k ==> s[j] != c
    ensures k < |s| ==> s[k] == c
  {
    if |s| == 0 then 0
    else if s[0] == c then 0
    else 1 + IndexOf(s[1..], c)
  }

  /** The serial after the first '-', when what follows it is a decimal number. */
  function SerialOf(s: string): Option<nat>
  {
    var k := IndexOf(s, '-');
    if k < |s| && |s[k + 1..]| > 0 && AllDigits(s[k + 1..]) then Some(DecValue(s[k + 1..]))
    else None
  }

  /** The stamp before the first '-', when what precedes it is a decimal number. */
  function StampOf(s: string): Option<nat>
  {
    var k := IndexOf(s, '-');
    if k < |s| && AllDigits(s[..k]) then Some(DecValue(s[..k])) else None
  }

  /** The first '-' of `${stamp}-${serial}` is the separator: digits never contain one. */
  lemma StampedParts(stamp: nat, serial: nat)
    ensures var s := Stamped(stamp, serial);
            var k := |Dec(stamp)|;
            && IndexOf(s, '-') == k && s[..k] == Dec(stamp) && s[k + 1..] == Dec(serial)
  {
    var s := Stamped(stamp, serial);
    var d := Dec(stamp);
    assert forall j :: 0 <= j < |d| ==> s[j] == d[j];
    assert s[|d|] == '-';
    assert s[..|d|] == d;
    assert s[|d| + 1..] == Dec(serial);
  }

  /** `SerialOf` decodes the serial `Stamped` encoded, whatever the stamp. */
  lemma SerialOfStamped(stamp: nat, serial: nat)
    ensures SerialOf(Stamped(stamp, serial)) == Some(serial)
  {
    StampedParts(stamp, serial);
    DecRoundTrip(serial);
  }

  /** `StampOf` decodes the stamp `Stamped` encoded. */
  lemma StampOfStamped(stamp: nat, serial: nat)
    ensures StampOf(Stamped(stamp, serial)) == Some(stamp)
  {
    StampedParts(stamp, serial);
    DecRoundTrip(stamp);
  }

  /** Two stamped identifiers are equal exactly when both their stamps and their serials are. */
  lemma StampedInjective(t1: nat, n1: nat, t2: nat, n2: nat)
    ensures Stamped(t1, n1) == Stamped(t2, n2) <==> t1 == t2 && n1 == n2
  {
    SerialOfStamped(t1, n1);
    SerialOfStamped(t2, n2);
    StampOfStamped(t1, n1);
    StampOfStamped(t2, n2);
  }

  /** Two stamped identifiers with different serials differ, even if the clock repeats. */
  lemma StampedDistinct(t1: nat, n1: nat, t2: nat, n2: nat)
    requires n1 != n2
    ensures Stamped(t1, n1) != Stamped(t2, n2)
  {
    SerialOfStamped(t1, n1);
    SerialOfStamped(t2, n2);
  }
}
