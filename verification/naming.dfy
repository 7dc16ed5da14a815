/** Display names of decoded strips (Mesh.cpp:242-245, Mesh.cpp:280-288).

    A name starts with the asset name cut after its last backslash
    (`find_last_of('\\') + 1`, which is the whole name when there is none),
    followed by `_`-separated decimal indices (`std::to_string`).
 */
module Naming {
  import opened Faults

  const Backslash: char := '\\'
  const Underscore: char := '_'

  /** The part of `path` after its last backslash, or all of it when it has none. */
  function Basename(path: string): (b: string)
    ensures Backslash !in b
    ensures |b| <= |path| && b == path[|path| - |b|..]
    ensures |b| < |path| ==> path[|path| - |b| - 1] == Backslash
  {
    if |path| == 0 then ""
    else if path[|path| - 1] == Backslash then ""
    else Basename(path[..|path| - 1]) + [path[|path| - 1]]
  }

  predicate IsDigit(c: char) {
    '0' <= c <= '9'
  }

  predicate AllDigits(s: string) {
    forall i :: 0 <= i < |s| ==> IsDigit(s[i])
  }

  function DigitChar(d: nat): (c: char)
    requires d < 10
    ensures IsDigit(c) && c as int - '0' as int == d
  {
    ('0' as int + d) as char
  }

  /** The decimal text of a non-negative index, as `std::to_string` writes it:
      digits only, and no leading zero except for 0 itself. */
  function Decimal(n: nat): (s: string)
    ensures |s| >= 1 && AllDigits(s)
    ensures s[0] == '0' ==> n == 0
  {
    if n < 10 then [DigitChar(n)] else Decimal(n / 10) + [DigitChar(n % 10)]
  }

  /** The value of a digit string, most significant digit first. */
  function DigitsValue(s: string): nat
    requires AllDigits(s)
  {
    if |s| == 0 then 0
    else DigitsValue(s[..|s| - 1]) * 10 + (s[|s| - 1] as int - '0' as int)
  }

  lemma {:induction false} DecimalRoundTrip(n: nat)
    ensures DigitsValue(Decimal(n)) == n
  {
    if n >= 10 {
      var s := Decimal(n);
      assert s[..|s| - 1] == Decimal(n / 10);
      DecimalRoundTrip(n / 10);
    }
  }

  /** The prefix of an object strip's name: the owning asset's basename, or
      `None` when the object has no parent (Mesh.cpp:281-282). */
  function OwnerPrefix(owner: Option<string>): string {
    match owner
    case Some(name) => Basename(name)
    case None => "None"
  }

  /** `<owner>_<hierarchy>_<lod>_<strip>` (Mesh.cpp:281-288). */
  function ObjectStripName(owner: Option<string>, hierarchy: nat, lod: nat, strip: nat): string {
    OwnerPrefix(owner) + "_" + Decimal(hierarchy) + "_" + Decimal(lod) + "_" + Decimal(strip)
  }

  /** `<asset basename>_<strip>` (Mesh.cpp:243-245). */
  function ClusterStripName(assetName: string, strip: nat): string {
    Basename(assetName) + "_" + Decimal(strip)
  }

  /** Splits a string at its last occurrence of c. */
  function SplitLast(s: string, c: char): Option<(string, string)> {
    if |s| == 0 then None
    else if s[|s| - 1] == c then Some((s[..|s| - 1], ""))
    else match SplitLast(s[..|s| - 1], c)
      case None => None
      case Some(parts) => Some((parts.0, parts.1 + [s[|s| - 1]]))
  }

  lemma {:induction false} SplitLastOf(a: string, c: char, b: string)
    requires c !in b
    ensures SplitLast(a + [c] + b, c) == Some((a, b))
    decreases |b|
  {
    var s := a + [c] + b;
    if |b| == 0 {
      assert s[..|s| - 1] == a;
    } else {
      var b' := b[..|b| - 1];
      assert s[..|s| - 1] == a + [c] + b';
      SplitLastOf(a, c, b');
      assert b' + [b[|b| - 1]] == b;
    }
  }

  lemma NoUnderscoreInDecimal(n: nat)
    ensures Underscore !in Decimal(n)
  {
  }

  /** A decimal index read back from text. */
  function ParseIndex(s: string): Option<nat> {
    if |s| > 0 && AllDigits(s) then Some(DigitsValue(s)) else None
  }

  /** Reads an object strip's name back, splitting at its last three underscores. */
  function ParseObjectStripName(name: string): Option<(string, nat, nat, nat)> {
    match SplitLast(name, Underscore)
    case None => None
    case Some(p1) =>
      match SplitLast(p1.0, Underscore)
      case None => None
      case Some(p2) =>
        match SplitLast(p2.0, Underscore)
        case None => None
        case Some(p3) =>
          match (ParseIndex(p3.1), ParseIndex(p2.1), ParseIndex(p1.1))
          case (Some(h), Some(l), Some(s)) => Some((p3.0, h, l, s))
          case _ => None
  }

  /** An object strip's name gives back its prefix and its three indices. */
  lemma ObjectStripNameRoundTrip(owner: Option<string>, hierarchy: nat, lod: nat, strip: nat)
    ensures ParseObjectStripName(ObjectStripName(owner, hierarchy, lod, strip))
         == Some((OwnerPrefix(owner), hierarchy, lod, strip))
  {
    var p := OwnerPrefix(owner);
    var dh, dl, ds := Decimal(hierarchy), Decimal(lod), Decimal(strip);
    NoUnderscoreInDecimal(hierarchy);
    NoUnderscoreInDecimal(lod);
    NoUnderscoreInDecimal(strip);
    DecimalRoundTrip(hierarchy);
    DecimalRoundTrip(lod);
    DecimalRoundTrip(strip);
    assert ObjectStripName(owner, hierarchy, lod, strip) == (p + "_" + dh + "_" + dl) + [Underscore] + ds;
    SplitLastOf(p + "_" + dh + "_" + dl, Underscore, ds);
    assert p + "_" + dh + "_" + dl == (p + "_" + dh) + [Underscore] + dl;
    SplitLastOf(p + "_" + dh, Underscore, dl);
    assert p + "_" + dh == p + [Underscore] + dh;
    SplitLastOf(p, Underscore, dh);
  }

  /** Within one owner, different index triples give different names. */
  lemma ObjectStripNamesDistinct(owner: Option<string>, h: nat, l: nat, s: nat, h': nat, l': nat, s': nat)
    requires (h, l, s) != (h', l', s')
    ensures ObjectStripName(owner, h, l, s) != ObjectStripName(owner, h', l', s')
  {
    ObjectStripNameRoundTrip(owner, h, l, s);
    ObjectStripNameRoundTrip(owner, h', l', s');
  }

  /** Reads a cluster strip's name back, splitting at its last underscore. */
  function ParseClusterStripName(name: string): Option<(string, nat)> {
    match SplitLast(name, Underscore)
    case None => None
    case Some(p) =>
      match ParseIndex(p.1)
      case Some(s) => Some((p.0, s))
      case None => None
  }

  /** A cluster strip's name gives back the asset basename and the strip index. */
  lemma ClusterStripNameRoundTrip(assetName: string, strip: nat)
    ensures ParseClusterStripName(ClusterStripName(assetName, strip)) == Some((Basename(assetName), strip))
  {
    IndexedNameRoundTrip(Basename(assetName), strip);
  }

  lemma IndexedNameRoundTrip(prefix: string, strip: nat)
    ensures ParseClusterStripName(prefix + "_" + Decimal(strip)) == Some((prefix, strip))
  {
    var d := Decimal(strip);
    NoUnderscoreInDecimal(strip);
    DecimalRoundTrip(strip);
    assert prefix + "_" + d == prefix + [Underscore] + d;
    SplitLastOf(prefix, Underscore, d);
    assert ParseIndex(d) == Some(strip);
  }
}
