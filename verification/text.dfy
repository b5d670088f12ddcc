/** String and list helpers the rest of the model shares: joining with a
    separator, first-occurrence search, splitting at a byte, file-name
    extensions (Go's `path.Ext`), ASCII lower-casing and decimal rendering. */
module Text {
  import opened Wrappers

  /** One byte of a Go string. Text that the modelled code indexes byte by byte
      (JSON text, file contents) is a sequence of these. */
  type Byte = c: char | c as int < 256 witness '0'

  type Bytes = seq<Byte>

  /** `parts` with `sep` between neighbours (Go's `strings.Join`). */
  function Join<T>(sep: seq<T>, parts: seq<seq<T>>): seq<T>
  {
    if |parts| == 0 then []
    else if |parts| == 1 then parts[0]
    else parts[0] + sep + Join(sep, parts[1..])
  }

  /** `parts` written one after another. */
  function Concat<T>(parts: seq<seq<T>>): seq<T>
  {
    if |parts| == 0 then [] else parts[0] + Concat(parts[1..])
  }

  function TotalLength<T>(parts: seq<seq<T>>): nat
  {
    if |parts| == 0 then 0 else |parts[0]| + TotalLength(parts[1..])
  }

  /** A join of n > 0 parts holds exactly n - 1 separators. */
  lemma {:induction false} JoinLength<T>(sep: seq<T>, parts: seq<seq<T>>)
    ensures |Join(sep, parts)| == TotalLength(parts) + (if |parts| == 0 then 0 else (|parts| - 1) * |sep|)
    decreases |parts|
  {
    if |parts| > 1 {
      JoinLength(sep, parts[1..]);
    }
  }

  /** Joining two non-empty lists is joining each and putting one separator
      between them: the parts keep their relative order. */
  lemma {:induction false} JoinAppend<T>(sep: seq<T>, a: seq<seq<T>>, b: seq<seq<T>>)
    requires |a| > 0 && |b| > 0
    ensures Join(sep, a + b) == Join(sep, a) + sep + Join(sep, b)
    decreases |a|
  {
    if |a| == 1 {
      assert (a + b)[1..] == b;
    } else {
      assert (a + b)[1..] == a[1..] + b;
      JoinAppend(sep, a[1..], b);
    }
  }

  /** Adding one part at the end adds one separator and the part. */
  lemma JoinSnoc<T>(sep: seq<T>, ps: seq<seq<T>>, p: seq<T>)
    requires |ps| > 0
    ensures Join(sep, ps + [p]) == Join(sep, ps) + sep + p
  {
    JoinAppend(sep, ps, [p]);
  }

  lemma {:induction false} ConcatAppend<T>(a: seq<seq<T>>, b: seq<seq<T>>)
    ensures Concat(a + b) == Concat(a) + Concat(b)
    decreases |a|
  {
    if |a| == 0 {
      assert a + b == b;
    } else {
      assert (a + b)[1..] == a[1..] + b;
      ConcatAppend(a[1..], b);
    }
  }

  /** Concat of a list extended by one part. */
  lemma ConcatSnoc<T>(a: seq<seq<T>>, p: seq<T>)
    ensures Concat(a + [p]) == Concat(a) + p
  {
    ConcatAppend(a, [p]);
    assert Concat([p]) == p + Concat([p][1..]);
  }

  /** The first index holding `x`, or -1 (Go's `strings.IndexByte` on a byte
      string, and the `indexOf` helper over a string list). */
  function IndexOf<T(==)>(s: seq<T>, x: T): (r: int)
    ensures -1 <= r < |s|
    ensures r == -1 <==> x !in s
    ensures 0 <= r ==> s[r] == x && x !in s[..r]
  {
    if |s| == 0 then -1
    else if s[0] == x then 0
    else
      var i := IndexOf(s[1..], x);
      if i == -1 then -1 else i + 1
  }

  /** Split at the first `c`: `None` when `s` has none, else the text before and
      after it (Go's `strings.Cut`; `strings.SplitN(s, c, 2)` gives the same two
      halves). */
  function Cut<T(==)>(s: seq<T>, c: T): (r: Option<(seq<T>, seq<T>)>)
    ensures r.None? <==> c !in s
    ensures r.Some? ==> s == r.value.0 + [c] + r.value.1 && c !in r.value.0
  {
    var n := IndexOf(s, c);
    if n < 0 then None
    else
      assert s == s[..n] + [c] + s[n + 1..];
      Some((s[..n], s[n + 1..]))
  }

  /** The index of the last `/` in `p`, or -1 when there is none: the final
      path element starts after it. */
  function LastSlash(p: string): (k: int)
    ensures -1 <= k < |p|
    ensures k >= 0 ==> p[k] == '/'
    ensures forall i | k < i < |p| :: p[i] != '/'
  {
    if |p| == 0 then -1
    else if p[|p| - 1] == '/' then |p| - 1
    else LastSlash(p[..|p| - 1])
  }

  /** The extension of a slash-separated path (Go's `path.Ext`): the suffix
      starting at the last dot of the final element, or empty when that element
      has no dot. */
  function Ext(p: string): (r: string)
    ensures |r| <= |p| && r == p[|p| - |r|..]
    ensures r != [] ==> r[0] == '.' && forall i | 1 <= i < |r| :: r[i] != '.' && r[i] != '/'
    ensures r == [] ==> forall i | LastSlash(p) < i < |p| :: p[i] != '.'
  {
    if |p| == 0 || p[|p| - 1] == '/' then []
    else if p[|p| - 1] == '.' then
      assert p[|p| - 1..] == ".";
      "."
    else
      var e := Ext(p[..|p| - 1]);
      if e == [] then [] else
        assert e + [p[|p| - 1]] == p[|p| - |e| - 1..];
        e + [p[|p| - 1]]
  }

  /** When the head does not satisfy `P`, some element does exactly when
      some element of the tail does. */
  lemma ExistsInTail<T>(s: seq<T>, P: T -> bool)
    requires |s| > 0 && !P(s[0])
    ensures (exists i | 0 <= i < |s| :: P(s[i])) <==> (exists i | 0 <= i < |s[1..]| :: P(s[1..][i]))
  {
    if exists i | 0 <= i < |s| :: P(s[i]) {
      var i :| 0 <= i < |s| && P(s[i]);
      assert s[1..][i - 1] == s[i];
    }
  }

  /** A dot followed by neither dots nor slashes. */
  predicate IsExtension(e: string)
  {
    |e| > 0 && e[0] == '.' && forall i | 1 <= i < |e| :: e[i] != '.' && e[i] != '/'
  }

  /** A path ending in `e`, where `e` is a dot followed by neither dots nor
      slashes, has extension `e` whatever comes before. */
  lemma {:induction false} ExtOfSuffix(p: string, e: string)
    requires IsExtension(e)
    ensures Ext(p + e) == e
    decreases |e|
  {
    if |e| > 1 {
      var e', c := e[..|e| - 1], e[|e| - 1];
      assert p + e == (p + e') + [c] && e' + [c] == e;
      ExtOfSuffix(p, e');
      ExtSnoc(p + e', c);
    } else {
      assert (p + e)[|p + e| - 1] == '.';
    }
  }

  /** A character that is neither a dot nor a slash lengthens an existing
      extension. */
  lemma ExtSnoc(q: string, c: char)
    requires c != '.' && c != '/' && Ext(q) != []
    ensures Ext(q + [c]) == Ext(q) + [c]
  {
    assert (q + [c])[..|q|] == q;
  }

  function LowerChar(c: char): char
  {
    if 'A' <= c <= 'Z' then (c as int + 32) as char else c
  }

  /** ASCII lower-casing. The modelled code only compares the lower-cased text
      against ASCII words; letters outside ASCII are left as they are. */
  function ToLower(s: string): (r: string)
    ensures |r| == |s|
    ensures forall i | 0 <= i < |s| :: r[i] == LowerChar(s[i])
  {
    if |s| == 0 then [] else [LowerChar(s[0])] + ToLower(s[1..])
  }

  lemma ToLowerIdempotent(s: string)
    ensures ToLower(ToLower(s)) == ToLower(s)
  {
  }

  function DigitChar(d: nat): char
    requires d < 10
  {
    ('0' as int + d) as char
  }

  predicate IsDigits(s: string)
  {
    forall i | 0 <= i < |s| :: '0' <= s[i] <= '9'
  }

  /** The value of a string of decimal digits. */
  function DecimalValue(s: string): nat
    requires IsDigits(s)
  {
    if |s| == 0 then 0 else DecimalValue(s[..|s| - 1]) * 10 + (s[|s| - 1] as int - '0' as int)
  }

  /** Decimal rendering of a natural number (Go's `strconv.Itoa` on a
      non-negative value). */
  function NatToString(n: nat): (r: string)
    ensures |r| > 0 && IsDigits(r)
    ensures |r| > 1 ==> r[0] != '0'
  {
    if n < 10 then [DigitChar(n)] else NatToString(n / 10) + [DigitChar(n % 10)]
  }

  /** Reading the rendering back gives the number. */
  lemma {:induction false} NatToStringRoundTrip(n: nat)
    ensures DecimalValue(NatToString(n)) == n
  {
    if n >= 10 {
      NatToStringRoundTrip(n / 10);
      var s := NatToString(n);
      assert s[..|s| - 1] == NatToString(n / 10);
    }
  }
}
