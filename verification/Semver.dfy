/** Version comparison (pkg/posture/posture.go). */
module Semver {
  import opened Text

  // ---- library calls --------------------------------------------------------------------------

  /** unicode.IsSpace */
  predicate IsSpace(c: char) {
    || '\U{09}' <= c <= '\U{0D}' || c == ' ' || c == '\U{85}' || c == '\U{A0}' || c == '\U{1680}'
    || '\U{2000}' <= c <= '\U{200A}' || c == '\U{2028}' || c == '\U{2029}' || c == '\U{202F}' || c == '\U{205F}'
    || c == '\U{3000}'
  }

  function TrimLeft(s: string): string {
    if |s| > 0 && IsSpace(s[0]) then TrimLeft(s[1..]) else s
  }

  function TrimRight(s: string): string {
    if |s| > 0 && IsSpace(s[|s| - 1]) then TrimRight(s[..|s| - 1]) else s
  }

  /** strings.TrimSpace */
  function TrimSpace(s: string): string {
    TrimRight(TrimLeft(s))
  }

  /** The text before the first separator, or all of it. */
  function Before(s: string, sep: char): (r: string)
    ensures r <= s && sep !in r
    ensures sep !in s ==> r == s
    ensures sep in s ==> |r| < |s| && s[|r|] == sep
  {
    if |s| == 0 || s[0] == sep then [] else [s[0]] + Before(s[1..], sep)
  }

  /** The text after the first separator, or nothing. */
  function After(s: string, sep: char): string {
    if sep in s then s[|Before(s, sep)| + 1..] else ""
  }

  /** strings.Split */
  function Split(s: string, sep: char): (parts: seq<string>)
    ensures |parts| > 0
  {
    if sep in s then [Before(s, sep)] + Split(After(s, sep), sep) else [s]
  }

  const MAX_UINT64: nat := 0xFFFF_FFFF_FFFF_FFFF

  function DigitValue(c: char): nat
    requires '0' <= c <= '9'
  {
    (c - '0') as nat
  }

  /** The value strconv.ParseUint leaves: 0 on a syntax error, the maximum once the digits so far exceed it. */
  function Scan(s: string, n: nat): (r: nat)
    requires n <= MAX_UINT64
    ensures r <= MAX_UINT64
  {
    if |s| == 0 then n
    else if !('0' <= s[0] <= '9') then 0
    else if n * 10 + DigitValue(s[0]) > MAX_UINT64 then MAX_UINT64
    else Scan(s[1..], n * 10 + DigitValue(s[0]))
  }

  function ParseUint(s: string): nat {
    Scan(s, 0)
  }

  // ---- what a version text means --------------------------------------------------------------------

  datatype Version = Version(numbers: seq<nat>, pre: string)

  /** Numbers past the end count as zero. */
  function NumberAt(v: Version, i: nat): nat {
    if i < |v.numbers| then v.numbers[i] else 0
  }

  function Numbers(parts: seq<string>): (r: seq<nat>)
    ensures |r| == |parts| && forall i :: 0 <= i < |r| ==> r[i] == ParseUint(parts[i])
  {
    seq(|parts|, i requires 0 <= i < |parts| => ParseUint(parts[i]))
  }

  function Clean(s: string): string {
    var t := TrimSpace(s);
    if |t| > 0 && t[0] == 'v' then t[1..] else t
  }

  function VersionOf(s: string): Version {
    var release := Before(Clean(s), '+');
    Version(Numbers(Split(Before(release, '-'), '.')), After(release, '-'))
  }

  ghost predicate SameNumbers(a: Version, b: Version) {
    forall i: nat :: NumberAt(a, i) == NumberAt(b, i)
  }

  /** The first number that differs is smaller. */
  ghost predicate NumbersBelow(a: Version, b: Version) {
    exists i: nat ::
      && NumberAt(a, i) < NumberAt(b, i)
      && forall j: nat :: j < i ==> NumberAt(a, j) == NumberAt(b, j)
  }

  /** A prerelease comes before the release, prereleases in the order of their texts. */
  predicate PreBelow(p: string, q: string) {
    p != "" && (q == "" || Less(p, q))
  }

  ghost predicate Precedes(a: Version, b: Version) {
    NumbersBelow(a, b) || (SameNumbers(a, b) && PreBelow(a.pre, b.pre))
  }

  ghost predicate Equivalent(a: Version, b: Version) {
    SameNumbers(a, b) && a.pre == b.pre
  }

  ghost function Compare(a: string, b: string): int {
    if Precedes(VersionOf(a), VersionOf(b)) then -1 else if Precedes(VersionOf(b), VersionOf(a)) then 1 else 0
  }

  // ---- the comparison ----------------------------------------------------------------------------------

  /** The comparison of the source decides the order of the versions the texts mean. */
  method CompareSemver(a: string, b: string) returns (r: int)
    ensures r == Compare(a, b)
    ensures r == -1 <==> Precedes(VersionOf(a), VersionOf(b))
    ensures r == 1 <==> Precedes(VersionOf(b), VersionOf(a))
    ensures r == 0 <==> Equivalent(VersionOf(a), VersionOf(b))
  {
    PrecedesIsStrict(VersionOf(a), VersionOf(b));
    var aClean, bClean := Clean(a), Clean(b);
    if aClean == bClean {
      return 0;
    }
    aClean, bClean := Before(aClean, '+'), Before(bClean, '+');
    var aPre, bPre := After(aClean, '-'), After(bClean, '-');
    aClean, bClean := Before(aClean, '-'), Before(bClean, '-');
    var aParts, bParts := Split(aClean, '.'), Split(bClean, '.');
    r := CompareNumbers(aParts, bParts, VersionOf(a), VersionOf(b));
    if r != 0 {
      return;
    }
    LessTrichotomy(aPre, bPre);
    if aPre == "" && bPre != "" {
      return 1;
    }
    if aPre != "" && bPre == "" {
      return -1;
    }
    if aPre != "" && bPre != "" {
      return if aPre == bPre then 0 else if Less(aPre, bPre) then -1 else 1;
    }
    return 0;
  }

  /** The loop over the numbers, the shorter list padded with zeros. */
  method CompareNumbers(aParts: seq<string>, bParts: seq<string>, ghost a: Version, ghost b: Version) returns (r: int)
    requires a.numbers == Numbers(aParts) && b.numbers == Numbers(bParts)
    ensures r == -1 || r == 0 || r == 1
    ensures r == -1 ==> NumbersBelow(a, b)
    ensures r == 1 ==> NumbersBelow(b, a)
    ensures r == 0 ==> SameNumbers(a, b)
  {
    var maxLen := |aParts|;
    if |bParts| > maxLen {
      maxLen := |bParts|;
    }
    for i := 0 to maxLen
      invariant forall j: nat :: j < i ==> NumberAt(a, j) == NumberAt(b, j)
    {
      var aNum, bNum := 0, 0;
      if i < |aParts| {
        aNum := ParseUint(aParts[i]);
      }
      if i < |bParts| {
        bNum := ParseUint(bParts[i]);
      }
      assert aNum == NumberAt(a, i) && bNum == NumberAt(b, i);
      if aNum < bNum {
        return -1;
      }
      if aNum > bNum {
        return 1;
      }
    }
    return 0;
  }

  // ---- a total preorder ------------------------------------------------------------------------------------

  lemma PreBelowIsStrict(p: string, q: string)
    ensures !(PreBelow(p, q) && PreBelow(q, p)) && !PreBelow(p, p)
    ensures p != q ==> PreBelow(p, q) || PreBelow(q, p)
  {
    LessTrichotomy(p, q);
    LessTrichotomy(p, p);
  }

  lemma PreBelowTransitive(p: string, q: string, r: string)
    requires PreBelow(p, q) && PreBelow(q, r)
    ensures PreBelow(p, r)
  {
    if r != "" {
      LessTransitive(p, q, r);
    }
  }

  lemma NumbersBelowIsStrict(a: Version, b: Version)
    ensures !(NumbersBelow(a, b) && NumbersBelow(b, a))
    ensures !(NumbersBelow(a, b) && SameNumbers(a, b))
  {}

  lemma NumbersBelowTransitive(a: Version, b: Version, c: Version)
    requires NumbersBelow(a, b) && NumbersBelow(b, c)
    ensures NumbersBelow(a, c)
  {
    var i: nat :| NumberAt(a, i) < NumberAt(b, i) && forall j: nat :: j < i ==> NumberAt(a, j) == NumberAt(b, j);
    var k: nat :| NumberAt(b, k) < NumberAt(c, k) && forall j: nat :: j < k ==> NumberAt(b, j) == NumberAt(c, j);
    var m := if i < k then i else k;
    assert NumberAt(a, m) < NumberAt(c, m);
  }

  lemma SameNumbersMoveBelow(a: Version, b: Version, c: Version)
    requires SameNumbers(a, b)
    ensures NumbersBelow(a, c) <==> NumbersBelow(b, c)
    ensures NumbersBelow(c, a) <==> NumbersBelow(c, b)
  {
    if NumbersBelow(a, c) {
      var i: nat :| NumberAt(a, i) < NumberAt(c, i) && forall j: nat :: j < i ==> NumberAt(a, j) == NumberAt(c, j);
      assert NumberAt(b, i) < NumberAt(c, i);
    }
    if NumbersBelow(b, c) {
      var i: nat :| NumberAt(b, i) < NumberAt(c, i) && forall j: nat :: j < i ==> NumberAt(b, j) == NumberAt(c, j);
      assert NumberAt(a, i) < NumberAt(c, i);
    }
    if NumbersBelow(c, a) {
      var i: nat :| NumberAt(c, i) < NumberAt(a, i) && forall j: nat :: j < i ==> NumberAt(c, j) == NumberAt(a, j);
      assert NumberAt(c, i) < NumberAt(b, i);
    }
    if NumbersBelow(c, b) {
      var i: nat :| NumberAt(c, i) < NumberAt(b, i) && forall j: nat :: j < i ==> NumberAt(c, j) == NumberAt(b, j);
      assert NumberAt(c, i) < NumberAt(a, i);
    }
  }

  lemma PrecedesIsStrict(a: Version, b: Version)
    ensures !(Precedes(a, b) && Precedes(b, a))
    ensures !(Precedes(a, b) && Equivalent(a, b))
    ensures Equivalent(a, b) <==> Equivalent(b, a)
  {
    NumbersBelowIsStrict(a, b);
    NumbersBelowIsStrict(b, a);
    PreBelowIsStrict(a.pre, b.pre);
  }

  /** Two versions always compare one way or the other. */
  lemma {:induction false} NumbersCompare(a: Version, b: Version, i: nat, bound: nat)
    requires |a.numbers| <= bound && |b.numbers| <= bound && i <= bound
    requires forall j: nat :: j < i ==> NumberAt(a, j) == NumberAt(b, j)
    ensures NumbersBelow(a, b) || NumbersBelow(b, a) || SameNumbers(a, b)
    decreases bound - i
  {
    if i < bound && NumberAt(a, i) == NumberAt(b, i) {
      NumbersCompare(a, b, i + 1, bound);
    }
  }

  lemma PrecedesTransitive(a: Version, b: Version, c: Version)
    requires Precedes(a, b) && Precedes(b, c)
    ensures Precedes(a, c)
  {
    if NumbersBelow(a, b) && NumbersBelow(b, c) {
      NumbersBelowTransitive(a, b, c);
    } else if SameNumbers(a, b) {
      SameNumbersMoveBelow(a, b, c);
      if SameNumbers(b, c) {
        PreBelowTransitive(a.pre, b.pre, c.pre);
      }
    } else {
      SameNumbersMoveBelow(b, c, a);
    }
  }

  lemma EquivalentMovesPrecedes(a: Version, b: Version, c: Version)
    requires Equivalent(a, b)
    ensures Precedes(a, c) <==> Precedes(b, c)
    ensures Precedes(c, a) <==> Precedes(c, b)
  {
    SameNumbersMoveBelow(a, b, c);
  }

  /** The comparison is antisymmetric in sign, and zero means the same version. */
  lemma CompareSigns(a: string, b: string)
    ensures Compare(a, b) == -Compare(b, a)
    ensures Compare(a, b) == 0 <==> Equivalent(VersionOf(a), VersionOf(b))
    ensures Compare(a, a) == 0
  {
    var x, y := VersionOf(a), VersionOf(b);
    PrecedesIsStrict(x, y);
    PrecedesIsStrict(x, x);
    NumbersCompare(x, y, 0, if |x.numbers| < |y.numbers| then |y.numbers| else |x.numbers|);
    PreBelowIsStrict(x.pre, y.pre);
  }

  /** At most and at most is at most; strictly so when one step is strict. */
  lemma CompareTransitive(a: string, b: string, c: string)
    ensures Compare(a, b) <= 0 && Compare(b, c) <= 0 ==> Compare(a, c) <= 0
    ensures Compare(a, b) < 0 && Compare(b, c) <= 0 ==> Compare(a, c) < 0
    ensures Compare(a, b) <= 0 && Compare(b, c) < 0 ==> Compare(a, c) < 0
  {
    var x, y, z := VersionOf(a), VersionOf(b), VersionOf(c);
    CompareSigns(a, b);
    CompareSigns(b, c);
    CompareSigns(a, c);
    if Compare(a, b) == 0 {
      EquivalentMovesPrecedes(x, y, z);
    } else if Compare(b, c) == 0 {
      EquivalentMovesPrecedes(y, z, x);
    } else if Compare(a, b) < 0 && Compare(b, c) < 0 {
      PrecedesTransitive(x, y, z);
    }
  }

  /** Zero is an equivalence the order respects. */
  lemma EqualVersionsCompareAlike(a: string, b: string, c: string)
    requires Compare(a, b) == 0
    ensures Compare(b, a) == 0
    ensures Compare(a, c) == Compare(b, c) && Compare(c, a) == Compare(c, b)
  {
    CompareSigns(a, b);
    EquivalentMovesPrecedes(VersionOf(a), VersionOf(b), VersionOf(c));
  }

  // ---- texts written out ----------------------------------------------------------------------------------

  function Capped(n: nat): nat {
    if n <= MAX_UINT64 then n else MAX_UINT64
  }

  predicate IsNumeral(s: string) {
    forall i :: 0 <= i < |s| ==> '0' <= s[i] <= '9'
  }

  function Value(s: string): nat
    requires IsNumeral(s)
  {
    if |s| == 0 then 0 else Value(s[..|s| - 1]) * 10 + DigitValue(s[|s| - 1])
  }

  lemma {:induction false} ScanNumeral(s: string, rest: string)
    requires IsNumeral(s)
    ensures Scan(s + rest, 0) == if Value(s) <= MAX_UINT64 then Scan(rest, Value(s)) else MAX_UINT64
  {
    if |s| == 0 {
      assert s + rest == rest;
    } else {
      var front, last := s[..|s| - 1], s[|s| - 1];
      var tail := [last] + rest;
      assert s + rest == front + tail;
      ScanNumeral(front, tail);
      assert tail[1..] == rest;
    }
  }

  /** A numeral is read as its value, capped to 64 bits. */
  lemma ParseNumeral(s: string)
    requires IsNumeral(s)
    ensures ParseUint(s) == Capped(Value(s))
    ensures ParseUint(s) == if Value(s) < 0x1_0000_0000_0000_0000 then Value(s) else 0xFFFF_FFFF_FFFF_FFFF
  {
    ScanNumeral(s, "");
    assert s + "" == s;
  }

  lemma BeforeAfter(s: string, sep: char, rest: string)
    requires sep !in s
    ensures Before(s + [sep] + rest, sep) == s && After(s + [sep] + rest, sep) == rest
  {
    var t := s + [sep] + rest;
    assert t[|s|] == sep;
    assert t == Before(t, sep) + [sep] + After(t, sep);
    SplitUnique(Before(t, sep), After(t, sep), s, rest, sep);
  }

  function Join(parts: seq<string>, sep: char): string
    requires |parts| > 0
  {
    if |parts| == 1 then parts[0] else parts[0] + [sep] + Join(parts[1..], sep)
  }

  lemma {:induction false} SplitJoin(parts: seq<string>, sep: char)
    requires |parts| > 0 && forall i :: 0 <= i < |parts| ==> sep !in parts[i]
    ensures Split(Join(parts, sep), sep) == parts
  {
    if |parts| > 1 {
      SplitFirst(parts[0], sep, Join(parts[1..], sep));
      SplitJoin(parts[1..], sep);
      assert parts == [parts[0]] + parts[1..];
    }
  }

  lemma SplitFirst(p: string, sep: char, rest: string)
    requires sep !in p
    ensures Split(p + [sep] + rest, sep) == [p] + Split(rest, sep)
  {
    BeforeAfter(p, sep, rest);
    assert (p + [sep] + rest)[|p|] == sep;
  }

  /** A part that is not a number counts as zero, unless its digits have exceeded 64 bits by then. */
  lemma ParseJunk(digits: string, c: char, rest: string)
    requires IsNumeral(digits) && !('0' <= c <= '9')
    ensures ParseUint(digits + [c] + rest) == if Value(digits) <= MAX_UINT64 then 0 else MAX_UINT64
  {
    ScanNumeral(digits, [c] + rest);
    assert digits + [c] + rest == digits + ([c] + rest);
  }

  ghost predicate AllSpace(s: string) {
    forall i :: 0 <= i < |s| ==> IsSpace(s[i])
  }

  /** Trimming takes the spaces at both ends and nothing else. */
  lemma TrimExactly(s: string) returns (l: string, r: string)
    ensures s == l + TrimSpace(s) + r && AllSpace(l) && AllSpace(r)
    ensures var t := TrimSpace(s); t != "" ==> !IsSpace(t[0]) && !IsSpace(t[|t| - 1])
  {
    l := TrimLeftExactly(s);
    r := TrimRightExactly(TrimLeft(s));
    assert s == l + (TrimSpace(s) + r);
    var t := TrimSpace(s);
    if t != "" {
      assert TrimLeft(s)[0] == t[0];
    }
  }

  lemma SpacesJoin(a: string, b: string)
    requires AllSpace(a) && AllSpace(b)
    ensures AllSpace(a + b)
  {}

  lemma {:induction false} TrimLeftExactly(s: string) returns (l: string)
    ensures s == l + TrimLeft(s) && AllSpace(l)
    ensures TrimLeft(s) != "" ==> !IsSpace(TrimLeft(s)[0])
  {
    l := "";
    if |s| > 0 && IsSpace(s[0]) {
      var rest := TrimLeftExactly(s[1..]);
      SpacesJoin([s[0]], rest);
      l := [s[0]] + rest;
    }
  }

  lemma {:induction false} TrimRightExactly(s: string) returns (r: string)
    ensures s == TrimRight(s) + r && AllSpace(r)
    ensures TrimRight(s) != "" ==> !IsSpace(TrimRight(s)[|TrimRight(s)| - 1])
  {
    r := "";
    if |s| > 0 && IsSpace(s[|s| - 1]) {
      var last := s[|s| - 1];
      var rest := TrimRightExactly(s[..|s| - 1]);
      SpacesJoin(rest, [last]);
      r := rest + [last];
      assert s == s[..|s| - 1] + [last];
    }
  }

  // ---- well-formed version texts ----------------------------------------------------------------------------

  ghost predicate IsCore(parts: seq<string>) {
    |parts| > 0 && forall i :: 0 <= i < |parts| ==> parts[i] != "" && IsNumeral(parts[i])
  }

  ghost predicate NoSpace(s: string) {
    forall i :: 0 <= i < |s| ==> !IsSpace(s[i])
  }

  /** A version text: numbers, then the prerelease and the build metadata when there are any. */
  function Written(v: bool, parts: seq<string>, pre: string, build: string): string
    requires |parts| > 0
  {
    (if v then ['v'] else "") + WithBuild(WithPre(Join(parts, '.'), pre), build)
  }

  function WithPre(core: string, pre: string): string {
    if pre == "" then core else core + ['-'] + pre
  }

  function WithBuild(release: string, build: string): string {
    if build == "" then release else release + ['+'] + build
  }

  lemma {:induction false} CoreText(parts: seq<string>)
    requires IsCore(parts)
    ensures var s := Join(parts, '.'); s != "" && forall i :: 0 <= i < |s| ==> s[i] == '.' || '0' <= s[i] <= '9'
    ensures '0' <= Join(parts, '.')[0] <= '9'
  {
    assert IsNumeral(parts[0]);
    if |parts| > 1 {
      CoreText(parts[1..]);
    }
  }

  /** Without a space at either end, there is nothing to trim. */
  lemma NothingToTrim(s: string)
    requires NoSpace(s)
    ensures TrimSpace(s) == s
  {}

  /** The metadata and the prerelease are told apart from the numbers again. */
  lemma PartsOfRelease(core: string, pre: string, build: string)
    requires '-' !in core && '+' !in core && '+' !in pre
    ensures var release := Before(WithBuild(WithPre(core, pre), build), '+');
            Before(release, '-') == core && After(release, '-') == pre
  {
    var release := WithPre(core, pre);
    assert '+' !in release;
    if build != "" {
      BeforeAfter(release, '+', build);
    }
    if pre != "" {
      BeforeAfter(core, '-', pre);
    }
  }

  lemma CleanWritten(v: bool, parts: seq<string>, pre: string, build: string)
    requires IsCore(parts) && NoSpace(pre) && NoSpace(build)
    ensures Clean(Written(v, parts, pre, build)) == WithBuild(WithPre(Join(parts, '.'), pre), build)
  {
    var core := Join(parts, '.');
    var body := WithBuild(WithPre(core, pre), build);
    CoreText(parts);
    assert body[0] == core[0];
    assert NoSpace(WithPre(core, pre));
    assert NoSpace(body);
    NothingToTrim(Written(v, parts, pre, build));
  }

  /** What a well-formed version text means: its numbers and its prerelease; the build metadata is ignored. */
  lemma WrittenVersion(v: bool, parts: seq<string>, pre: string, build: string)
    requires IsCore(parts) && NoSpace(pre) && NoSpace(build) && '+' !in pre
    ensures VersionOf(Written(v, parts, pre, build)) == Version(Numbers(parts), pre)
    ensures forall i :: 0 <= i < |parts| ==> Numbers(parts)[i] == Capped(Value(parts[i]))
  {
    CoreText(parts);
    CleanWritten(v, parts, pre, build);
    PartsOfRelease(Join(parts, '.'), pre, build);
    forall i | 0 <= i < |parts|
      ensures '.' !in parts[i] && Numbers(parts)[i] == Capped(Value(parts[i]))
    {
      assert IsNumeral(parts[i]);
      ParseNumeral(parts[i]);
    }
    SplitJoin(parts, '.');
  }

  // ---- the order of well-formed versions -----------------------------------------------------------------------

  /** Value i of a version text, capped, and zero past its end. */
  function PartValue(parts: seq<string>, i: nat): nat
    requires i < |parts| ==> IsNumeral(parts[i])
  {
    if i < |parts| then Capped(Value(parts[i])) else 0
  }

  /** The first number that differs decides, 1.9 before 1.10, whatever follows. */
  lemma FirstNumberDecides(va: bool, a: seq<string>, preA: string, buildA: string,
                           vb: bool, b: seq<string>, preB: string, buildB: string, i: nat)
    requires IsCore(a) && NoSpace(preA) && NoSpace(buildA) && '+' !in preA
    requires IsCore(b) && NoSpace(preB) && NoSpace(buildB) && '+' !in preB
    requires forall j: nat :: j < i ==> PartValue(a, j) == PartValue(b, j)
    requires PartValue(a, i) < PartValue(b, i)
    ensures Compare(Written(va, a, preA, buildA), Written(vb, b, preB, buildB)) == -1
  {
    var x, y := Written(va, a, preA, buildA), Written(vb, b, preB, buildB);
    WrittenVersion(va, a, preA, buildA);
    WrittenVersion(vb, b, preB, buildB);
    forall j: nat
      ensures NumberAt(VersionOf(x), j) == PartValue(a, j) && NumberAt(VersionOf(y), j) == PartValue(b, j)
    {
    }
    assert NumberAt(VersionOf(x), i) < NumberAt(VersionOf(y), i);
  }

  /** With the same numbers, a prerelease comes before its release, and prereleases by their texts. */
  lemma PrereleaseDecides(va: bool, a: seq<string>, preA: string, buildA: string,
                          vb: bool, b: seq<string>, preB: string, buildB: string)
    requires IsCore(a) && NoSpace(preA) && NoSpace(buildA) && '+' !in preA
    requires IsCore(b) && NoSpace(preB) && NoSpace(buildB) && '+' !in preB
    requires forall j: nat :: PartValue(a, j) == PartValue(b, j)
    ensures preA != "" && preB == "" ==> Compare(Written(va, a, preA, buildA), Written(vb, b, preB, buildB)) == -1
    ensures preA != "" && preB != "" ==>
      Compare(Written(va, a, preA, buildA), Written(vb, b, preB, buildB)) ==
      if preA == preB then 0 else if Less(preA, preB) then -1 else 1
    ensures preA == preB ==> Compare(Written(va, a, preA, buildA), Written(vb, b, preB, buildB)) == 0
  {
    var x, y := Written(va, a, preA, buildA), Written(vb, b, preB, buildB);
    WrittenVersion(va, a, preA, buildA);
    WrittenVersion(vb, b, preB, buildB);
    forall j: nat
      ensures NumberAt(VersionOf(x), j) == PartValue(a, j) && NumberAt(VersionOf(y), j) == PartValue(b, j)
    {
    }
    SameNumbersCompare(x, y);
  }

  lemma SameNumbersCompare(a: string, b: string)
    requires SameNumbers(VersionOf(a), VersionOf(b))
    ensures var p, q := VersionOf(a).pre, VersionOf(b).pre;
            Compare(a, b) == if p == q then 0 else if PreBelow(p, q) then -1 else 1
  {
    var x, y := VersionOf(a), VersionOf(b);
    NumbersBelowIsStrict(x, y);
    NumbersBelowIsStrict(y, x);
    PreBelowIsStrict(x.pre, y.pre);
    PreBelowIsStrict(x.pre, x.pre);
  }
}
