/** The string operations the scripts rely on: `str.startswith`, `str.endswith`,
    `str.lower`, decimal digits for Blender's numeric name suffixes, and the
    file-name parts taken by `os.path.basename` and `os.path.splitext`. */
module Text {
  import opened Wrappers

  predicate StartsWith(s: string, prefix: string) {
    |prefix| <= |s| && s[..|prefix|] == prefix
  }

  predicate EndsWith(s: string, suffix: string) {
    |suffix| <= |s| && s[|s| - |suffix|..] == suffix
  }

  /** A string that starts with `b + c` starts with `b`. */
  lemma PrefixOfPrefix(a: string, b: string, c: string)
    requires StartsWith(a, b + c)
    ensures StartsWith(a, b)
  {
    assert a[..|b|] == (b + c)[..|b|];
  }

  /** ASCII lower-casing of one character. */
  function LowerChar(c: char): char {
    if 'A' <= c <= 'Z' then (c as int + 32) as char else c
  }

  /** `s.lower()` restricted to ASCII letters. */
  function Lower(s: string): (r: string)
    ensures |r| == |s|
    ensures forall k :: 0 <= k < |s| ==> r[k] == LowerChar(s[k])
  {
    if s == [] then [] else [LowerChar(s[0])] + Lower(s[1..])
  }

  /** Lower-casing twice is lower-casing once. */
  lemma LowerIdempotent(s: string)
    ensures Lower(Lower(s)) == Lower(s)
  {
    var l := Lower(s);
    forall k | 0 <= k < |s|
      ensures Lower(l)[k] == l[k]
    {
      assert l[k] == LowerChar(s[k]);
    }
  }

  /** A suffix at least as long as another one that `s` ends with ends with it too. */
  lemma SuffixOfSuffix(s: string, a: string, b: string)
    requires EndsWith(s, a) && EndsWith(s, b) && |a| <= |b|
    ensures EndsWith(b, a)
  {
    assert b[|b| - |a|..] == s[|s| - |a|..];
  }

  /** A suffix of a suffix of `s` is a suffix of `s`. */
  lemma EndsWithTrans(s: string, b: string, a: string)
    requires EndsWith(s, b) && EndsWith(b, a)
    ensures EndsWith(s, a)
  {
    assert s[|s| - |a|..] == s[|s| - |b|..][|b| - |a|..];
  }

  lemma LowerAppend(a: string, b: string)
    ensures Lower(a + b) == Lower(a) + Lower(b)
  {
    assert forall k :: 0 <= k < |a + b| ==> Lower(a + b)[k] == (Lower(a) + Lower(b))[k];
  }

  function DigitChar(d: nat): char
    requires d < 10
  {
    "0123456789"[d]
  }

  /** The decimal representation of `n`, without leading zeros. */
  function Digits(n: nat): (r: string)
    ensures |r| >= 1
    ensures forall k :: 0 <= k < |r| ==> '0' <= r[k] <= '9'
  {
    if n < 10 then [DigitChar(n)] else Digits(n / 10) + [DigitChar(n % 10)]
  }

  function Pow10(m: nat): (r: nat)
    ensures r >= 1
  {
    if m == 0 then 1 else 10 * Pow10(m - 1)
  }

  /** 10^m is written with m + 1 digits. */
  lemma {:induction false} DigitsOfPow10(m: nat)
    ensures |Digits(Pow10(m))| == m + 1
  {
    if m > 0 {
      DigitsOfPow10(m - 1);
      assert Pow10(m) == 10 * Pow10(m - 1);
      assert Pow10(m) / 10 == Pow10(m - 1);
    }
  }

  /** The part of `p` after its last '/', as `os.path.basename` gives it. */
  function Basename(p: string): string {
    if p == [] then []
    else if p[|p| - 1] == '/' then []
    else Basename(p[..|p| - 1]) + [p[|p| - 1]]
  }

  /** The base name is the tail of the path after its last '/'. */
  lemma {:induction false} BasenameIsLastPart(p: string)
    ensures EndsWith(p, Basename(p))
    ensures forall k :: 0 <= k < |Basename(p)| ==> Basename(p)[k] != '/'
    ensures |Basename(p)| < |p| ==> p[|p| - |Basename(p)| - 1] == '/'
  {
    if p != [] && p[|p| - 1] != '/' {
      var q := p[..|p| - 1];
      BasenameIsLastPart(q);
      assert q + [p[|p| - 1]] == p;
      assert Basename(p) == Basename(q) + [p[|p| - 1]];
      assert p[|p| - |Basename(p)|..] == q[|q| - |Basename(q)|..] + [p[|p| - 1]];
    }
  }

  /** The index of the last '.' in `s`, if any. */
  function LastDot(s: string): (r: Option<nat>)
    ensures r.Some? ==> r.value < |s| && s[r.value] == '.'
    ensures r.Some? ==> forall j :: r.value < j < |s| ==> s[j] != '.'
    ensures r.None? ==> forall j :: 0 <= j < |s| ==> s[j] != '.'
  {
    if s == [] then None
    else if s[|s| - 1] == '.' then Some(|s| - 1)
    else LastDot(s[..|s| - 1])
  }

  /** The root that `os.path.splitext(name)[0]` returns: `name` without its
      last extension; a name made of leading dots and one extension-looking
      part (".bashrc") keeps everything. */
  function Stem(name: string): string {
    match LastDot(name)
    case None => name
    case Some(k) =>
      if exists j :: 0 <= j < k && name[j] != '.' then name[..k] else name
  }

  /** The stem is a prefix of the name, cut only at a '.' that has something
      other than dots before it. */
  lemma StemIsPrefix(name: string)
    ensures StartsWith(name, Stem(name))
    ensures |Stem(name)| < |name| ==>
      name[|Stem(name)|] == '.' && exists j :: 0 <= j < |Stem(name)| && Stem(name)[j] != '.'
  {
  }

  /** The strip name the host derives from a media path. */
  function MediaName(path: string): string {
    Stem(Basename(path))
  }
}
