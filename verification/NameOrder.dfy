/** The order of catalog keys: parent CNID, then name, by code units or by folded code units. */
module NameOrder {
  import opened Arith

  /** 16-bit code units. */
  type Units = seq<nat>

  ghost predicate UnitsOk(s: Units) {
    forall i :: 0 <= i < |s| ==> s[i] < 0x1_0000
  }

  /** The fold of a code unit; 0 for an ignorable one. */
  function FoldU16(c: nat): nat {
    if c == 0 then 0
    else if c <= 0x1F then c
    else if 0x41 <= c <= 0x5A then c + 0x20
    else if 0xC0 <= c <= 0xDE && c != 0xD7 then c + 0x20
    else if 0x100 <= c <= 0x17E then (if c % 2 == 0 then c + 1 else c)
    else c
  }

  /** The folded units that count. */
  function Folded(s: Units): Units {
    if s == [] then [] else (if FoldU16(s[0]) == 0 then [] else [FoldU16(s[0])]) + Folded(s[1..])
  }

  /** Lexicographic order. */
  function CompareUnits(a: Units, b: Units): int {
    if a == [] && b == [] then 0
    else if a == [] then -1
    else if b == [] then 1
    else if a[0] != b[0] then (if a[0] < b[0] then -1 else 1)
    else CompareUnits(a[1..], b[1..])
  }

  // ---- what the order means ----

  /** `a` comes first: at the first place where they differ it has the smaller unit, or it ends there. */
  ghost predicate Lexicographic(a: Units, b: Units) {
    exists i :: 0 <= i <= |a| && FirstDifference(a, b, i) && (i == |a| || a[i] < b[i])
  }

  ghost predicate FirstDifference(a: Units, b: Units, i: nat) {
    i <= |a| && i < |b| && forall j :: 0 <= j < i ==> a[j] == b[j]
  }

  /** `u` is a capital letter and `l` its small one: A to Z, the Latin-1 letters without the multiplication sign, and
      the even units of Latin Extended-A with the odd ones after them. */
  predicate CaseOf(u: nat, l: nat) {
    || (0x41 <= u <= 0x5A && l == u + 0x20)
    || (0xC0 <= u <= 0xDE && u != 0xD7 && l == u + 0x20)
    || (0x100 <= u <= 0x17E && u % 2 == 0 && l == u + 1)
  }

  predicate SameLetter(a: nat, b: nat) {
    a == b || CaseOf(a, b) || CaseOf(b, a)
  }

  /** The small letter of a capital; any other unit itself. */
  function Small(c: nat): nat {
    if CaseOf(c, c + 0x20) then c + 0x20 else if CaseOf(c, c + 1) then c + 1 else c
  }

  ghost predicate SameLetters(a: Units, b: Units) {
    |a| == |b| && forall i :: 0 <= i < |a| ==> SameLetter(a[i], b[i])
  }

  /** `a` comes first when capitals count as small letters. */
  ghost predicate LettersBefore(a: Units, b: Units) {
    exists i :: 0 <= i <= |a| && SameUpTo(a, b, i) && (i == |a| || Small(a[i]) < Small(b[i]))
  }

  ghost predicate SameUpTo(a: Units, b: Units, i: nat) {
    i <= |a| && i < |b| && forall j :: 0 <= j < i ==> SameLetter(a[j], b[j])
  }

  /** The units of a name that are not 0. */
  function WithoutNuls(s: Units): Units {
    if s == [] then [] else (if s[0] == 0 then [] else [s[0]]) + WithoutNuls(s[1..])
  }

  ghost predicate NoNuls(s: Units) {
    forall i :: 0 <= i < |s| ==> s[i] != 0
  }

  lemma {:induction false} WithoutNulsIs(s: Units)
    ensures NoNuls(WithoutNuls(s)) && Folded(WithoutNuls(s)) == Folded(s)
    ensures NoNuls(s) ==> WithoutNuls(s) == s
  {
    if s != [] {
      WithoutNulsIs(s[1..]);
      assert NoNuls(s) ==> NoNuls(s[1..]);
      var t := WithoutNuls(s[1..]);
      assert s == [s[0]] + s[1..];
      FoldedFirst(s[0], t);
      assert [] + t == t && [] + Folded(s[1..]) == Folded(s[1..]);
    }
  }

  lemma FoldedFirst(c: nat, t: Units)
    ensures c != 0 ==> Folded([c] + t) == [FoldU16(c)] + Folded(t) && FoldU16(c) != 0
  {
    assert ([c] + t)[1..] == t;
  }

  lemma {:induction false} CompareIsLexicographic(a: Units, b: Units)
    ensures CompareUnits(a, b) < 0 <==> Lexicographic(a, b)
    ensures CompareUnits(a, b) > 0 <==> Lexicographic(b, a)
    ensures CompareUnits(a, b) == 0 <==> a == b
    ensures -1 <= CompareUnits(a, b) <= 1
  {
    if a == [] || b == [] {
      assert a == [] && b != [] ==> FirstDifference(a, b, 0);
      assert b == [] && a != [] ==> FirstDifference(b, a, 0);
    } else if a[0] != b[0] {
      assert FirstDifference(a, b, 0) && FirstDifference(b, a, 0);
    } else {
      CompareIsLexicographic(a[1..], b[1..]);
      LexicographicNext(a, b);
      LexicographicNext(b, a);
      assert a == [a[0]] + a[1..] && b == [b[0]] + b[1..];
    }
  }

  lemma LexicographicNext(a: Units, b: Units)
    requires a != [] && b != [] && a[0] == b[0]
    ensures Lexicographic(a, b) <==> Lexicographic(a[1..], b[1..])
  {
    if Lexicographic(a, b) {
      var i :| 0 <= i <= |a| && FirstDifference(a, b, i) && (i == |a| || a[i] < b[i]);
      assert FirstDifference(a[1..], b[1..], i - 1);
    }
    if Lexicographic(a[1..], b[1..]) {
      var i :| 0 <= i <= |a[1..]| && FirstDifference(a[1..], b[1..], i) && (i == |a[1..]| || a[1..][i] < b[1..][i]);
      assert forall j :: 0 < j < i + 1 ==> a[j] == a[1..][j - 1] && b[j] == b[1..][j - 1];
      assert FirstDifference(a, b, i + 1);
    }
  }

  lemma FoldIsSmall(a: nat, b: nat)
    ensures FoldU16(a) == Small(a) && (FoldU16(a) == FoldU16(b) <==> SameLetter(a, b))
  {
  }

  lemma {:induction false} FoldedAt(s: Units)
    requires NoNuls(s)
    ensures |Folded(s)| == |s| && forall i :: 0 <= i < |s| ==> Folded(s)[i] == FoldU16(s[i])
  {
    if s != [] {
      FoldedAt(s[1..]);
    }
  }

  /** Names without units 0 compare letter by letter. */
  lemma FoldedLetters(a: Units, b: Units)
    requires NoNuls(a) && NoNuls(b)
    ensures Folded(a) == Folded(b) <==> SameLetters(a, b)
    ensures Lexicographic(Folded(a), Folded(b)) <==> LettersBefore(a, b)
  {
    hide FoldU16, Folded, SameLetter, Small, NoNuls;
    FoldedAt(a);
    FoldedAt(b);
    if |a| == |b| {
      SameFolds(a, b, |a|);
    }
    var x, y := Folded(a), Folded(b);
    if Lexicographic(x, y) {
      var i :| 0 <= i <= |x| && FirstDifference(x, y, i) && (i == |x| || x[i] < y[i]);
      FoldedPlace(a, b, i);
    }
    if LettersBefore(a, b) {
      var i :| 0 <= i <= |a| && SameUpTo(a, b, i) && (i == |a| || Small(a[i]) < Small(b[i]));
      FoldedPlace(a, b, i);
    }
  }

  lemma SameFolds(a: Units, b: Units, n: nat)
    requires n <= |a| && n <= |b|
    ensures (forall i :: 0 <= i < n ==> FoldU16(a[i]) == FoldU16(b[i])) <==>
      (forall i :: 0 <= i < n ==> SameLetter(a[i], b[i]))
  {
    hide FoldU16, SameLetter;
    forall i | 0 <= i < n ensures FoldU16(a[i]) == FoldU16(b[i]) <==> SameLetter(a[i], b[i]) {
      FoldIsSmall(a[i], b[i]);
    }
  }

  lemma FoldedPlace(a: Units, b: Units, i: nat)
    requires NoNuls(a) && NoNuls(b) && i <= |a| && i < |b|
    ensures |Folded(a)| == |a| && |Folded(b)| == |b|
    ensures FirstDifference(Folded(a), Folded(b), i) <==> SameUpTo(a, b, i)
    ensures i < |a| ==> Folded(a)[i] == Small(a[i]) && Folded(b)[i] == Small(b[i])
  {
    hide FoldU16, Folded, SameLetter, Small, NoNuls;
    FoldedAt(a);
    FoldedAt(b);
    SameFolds(a, b, i);
    if i < |a| {
      FoldIsSmall(a[i], b[i]);
      FoldIsSmall(b[i], a[i]);
    }
  }

  /** The folded order, said in letters. */
  lemma FoldedOrder(a: Units, b: Units)
    ensures var r := CompareUnits(Folded(a), Folded(b));
      && -1 <= r <= 1
      && (r == 0 <==> SameLetters(WithoutNuls(a), WithoutNuls(b)))
      && (r < 0 <==> LettersBefore(WithoutNuls(a), WithoutNuls(b)))
      && (r > 0 <==> LettersBefore(WithoutNuls(b), WithoutNuls(a)))
  {
    hide Folded, WithoutNuls, SameLetters, LettersBefore, Lexicographic, CompareUnits, NoNuls;
    var x, y := WithoutNuls(a), WithoutNuls(b);
    WithoutNulsIs(a);
    WithoutNulsIs(b);
    FoldedLetters(x, y);
    FoldedLetters(y, x);
    CompareIsLexicographic(Folded(x), Folded(y));
  }

  // ---- the loops ----

  /** The next folded unit from `i` on that counts, and where to go on. */
  method NextFolded(s: Units, i: nat) returns (c: nat, ok: bool, next: nat)
    requires i <= |s|
    ensures i <= next <= |s| && (ok ==> i < next)
    ensures ok ==> c != 0 && Folded(s[i..]) == [c] + Folded(s[next..])
    ensures !ok ==> Folded(s[i..]) == []
  {
    next := i;
    while next < |s|
      invariant i <= next <= |s| && Folded(s[next..]) == Folded(s[i..])
    {
      assert s[next..][1..] == s[next + 1..];
      c := FoldU16(s[next]);
      next := next + 1;
      if c != 0 {
        return c, true, next;
      }
    }
    return 0, false, next;
  }

  /** Two cursors, each skipping its ignorable units, compare the folded sequences lexicographically. */
  method FastUnicodeCompare(a: Units, b: Units) returns (r: int)
    ensures r == CompareUnits(Folded(a), Folded(b)) && -1 <= r <= 1
    ensures r == 0 <==> SameLetters(WithoutNuls(a), WithoutNuls(b))
    ensures r < 0 <==> LettersBefore(WithoutNuls(a), WithoutNuls(b))
    ensures NoNuls(a) && NoNuls(b) ==> (r == 0 <==> SameLetters(a, b)) && (r < 0 <==> LettersBefore(a, b))
  {
    hide FoldU16, WithoutNuls, SameLetters, LettersBefore, NoNuls;
    FoldedOrder(a, b);
    WithoutNulsIs(a);
    WithoutNulsIs(b);
    var ia: nat, ib: nat := 0, 0;
    assert a[0..] == a && b[0..] == b;
    while true
      invariant ia <= |a| && ib <= |b|
      invariant CompareUnits(Folded(a), Folded(b)) == CompareUnits(Folded(a[ia..]), Folded(b[ib..]))
      decreases |a| - ia
    {
      var ca, oka, cb, okb;
      ghost var fa, fb := Folded(a[ia..]), Folded(b[ib..]);
      ca, oka, ia := NextFolded(a, ia);
      cb, okb, ib := NextFolded(b, ib);
      if !oka && !okb {
        return 0;
      }
      if !oka {
        return -1;
      }
      if !okb {
        return 1;
      }
      if ca != cb {
        return if ca < cb then -1 else 1;
      }
      assert fa[1..] == Folded(a[ia..]) && fb[1..] == Folded(b[ib..]);
    }
  }

  method CompareU16(a: Units, b: Units) returns (r: int)
    ensures r == CompareUnits(a, b) && -1 <= r <= 1
    ensures (r == 0 <==> a == b) && (r < 0 <==> Lexicographic(a, b))
  {
    hide Lexicographic;
    CompareIsLexicographic(a, b);
    var n := if |b| < |a| then |b| else |a|;
    assert a[0..] == a && b[0..] == b;
    for i := 0 to n
      invariant CompareUnits(a, b) == CompareUnits(a[i..], b[i..])
    {
      assert a[i..][1..] == a[i + 1..] && b[i..][1..] == b[i + 1..];
      if a[i] != b[i] {
        return if a[i] < b[i] then -1 else 1;
      }
    }
    if |a| < |b| {
      return -1;
    }
    if |a| > |b| {
      return 1;
    }
    return 0;
  }

  // ---- catalog keys ----

  datatype CatalogKey = CatalogKey(parent: nat, name: Units)

  /** The units a key compares by. */
  function Compared(name: Units, binary: bool): Units {
    if binary then name else Folded(name)
  }

  function CompareKeys(a: CatalogKey, b: CatalogKey, binary: bool): int {
    if a.parent != b.parent then (if a.parent < b.parent then -1 else 1)
    else CompareUnits(Compared(a.name, binary), Compared(b.name, binary))
  }

  method CompareCatalogKey(a: CatalogKey, b: CatalogKey, binary: bool) returns (r: int)
    ensures r == CompareKeys(a, b, binary) && -1 <= r <= 1
    ensures a.parent != b.parent ==> r != 0 && (r < 0 <==> a.parent < b.parent)
    ensures a.parent == b.parent && binary ==>
      (r == 0 <==> a.name == b.name) && (r < 0 <==> Lexicographic(a.name, b.name))
    ensures a.parent == b.parent && !binary ==>
      var x, y := WithoutNuls(a.name), WithoutNuls(b.name);
      (r == 0 <==> SameLetters(x, y)) && (r < 0 <==> LettersBefore(x, y))
  {
    hide WithoutNuls, SameLetters, LettersBefore, Lexicographic;
    if a.parent != b.parent {
      return if a.parent < b.parent then -1 else 1;
    }
    if binary {
      r := CompareU16(a.name, b.name);
    } else {
      r := FastUnicodeCompare(a.name, b.name);
    }
  }

  lemma {:induction false} FoldedOk(s: Units)
    requires UnitsOk(s)
    ensures UnitsOk(Folded(s)) && |Folded(s)| <= |s|
  {
    if s != [] {
      assert forall i :: 0 <= i < |s[1..]| ==> s[1..][i] == s[i + 1];
      FoldedOk(s[1..]);
    }
  }

  // ---- the order as integers ----

  const BASE := 0x1_0001
  const MAX_NAME := 255

  function Weight(k: nat): (w: nat)
    ensures w > 0
  {
    if k == 0 then 1 else BASE * Weight(k - 1)
  }

  /** A name of at most `k` units as a number: a unit `u` is the digit `u + 1`, the end of the name the digit 0. */
  function NameRank(s: Units, k: nat): nat {
    if k == 0 || s == [] then 0 else (s[0] + 1) * Weight(k - 1) + NameRank(s[1..], k - 1)
  }

  lemma {:induction false} NameRankBound(s: Units, k: nat)
    requires UnitsOk(s)
    ensures NameRank(s, k) < Weight(k)
    decreases k
  {
    if k > 0 && s != [] {
      assert forall i :: 0 <= i < |s[1..]| ==> s[1..][i] == s[i + 1];
      NameRankBound(s[1..], k - 1);
      DigitBound(s[0] + 1, Weight(k - 1));
    }
  }

  lemma DigitBound(d: nat, w: nat)
    requires d < BASE
    ensures d * w + w <= BASE * w
  {
    assert d * w + w == (d + 1) * w;
    MulMono(d + 1, BASE, w);
  }

  /** A larger leading digit outweighs whatever follows. */
  lemma DigitWins(d: nat, e: nat, w: nat, x: nat, y: nat)
    requires d < e && x < w
    ensures d * w + x < e * w + y
  {
    assert d * w + w == (d + 1) * w;
    MulMono(d + 1, e, w);
  }

  /** Ranks compare as the sequences do. */
  lemma {:induction false} NameRankOrder(a: Units, b: Units, k: nat)
    requires UnitsOk(a) && UnitsOk(b) && |a| <= k && |b| <= k
    ensures CompareUnits(a, b) < 0 <==> NameRank(a, k) < NameRank(b, k)
    ensures CompareUnits(a, b) == 0 <==> NameRank(a, k) == NameRank(b, k)
    decreases k
  {
    hide Weight, UnitsOk;
    if a != [] && b != [] {
      TailOk(a);
      TailOk(b);
      var w, x, y := Weight(k - 1), NameRank(a[1..], k - 1), NameRank(b[1..], k - 1);
      NameRankBound(a[1..], k - 1);
      NameRankBound(b[1..], k - 1);
      if a[0] < b[0] {
        DigitWins(a[0] + 1, b[0] + 1, w, x, y);
      } else if b[0] < a[0] {
        DigitWins(b[0] + 1, a[0] + 1, w, y, x);
      } else {
        NameRankOrder(a[1..], b[1..], k - 1);
      }
    } else if a != [] {
      RankPositive(a, k);
    } else if b != [] {
      RankPositive(b, k);
    }
  }

  lemma TailOk(s: Units)
    requires UnitsOk(s) && s != []
    ensures UnitsOk(s[1..])
  {
  }

  lemma RankPositive(s: Units, k: nat)
    requires s != [] && k > 0
    ensures NameRank(s, k) > 0
  {
    assert (s[0] + 1) * Weight(k - 1) == s[0] * Weight(k - 1) + Weight(k - 1);
  }

  predicate NameOk(name: Units) {
    |name| <= MAX_NAME && forall i :: 0 <= i < |name| ==> name[i] < 0x1_0000
  }

  /** A catalog key as the integer the tree model compares. */
  function CatalogRank(k: CatalogKey, binary: bool): nat {
    k.parent * Weight(MAX_NAME) + NameRank(Compared(k.name, binary), MAX_NAME)
  }

  /** In both modes the comparison is the order of integers, so a total preorder; in binary mode equal ranks are equal
      keys. */
  lemma CatalogRankOrder(a: CatalogKey, b: CatalogKey, binary: bool)
    requires NameOk(a.name) && NameOk(b.name)
    ensures CompareKeys(a, b, binary) < 0 <==> CatalogRank(a, binary) < CatalogRank(b, binary)
    ensures CompareKeys(a, b, binary) == 0 <==> CatalogRank(a, binary) == CatalogRank(b, binary)
    ensures binary && CatalogRank(a, binary) == CatalogRank(b, binary) ==> a == b
  {
    hide Weight, NameRank;
    FoldedOk(a.name);
    FoldedOk(b.name);
    var x, y := Compared(a.name, binary), Compared(b.name, binary);
    var w, p, q := Weight(MAX_NAME), NameRank(x, MAX_NAME), NameRank(y, MAX_NAME);
    NameRankBound(x, MAX_NAME);
    NameRankBound(y, MAX_NAME);
    NameRankOrder(x, y, MAX_NAME);
    if a.parent < b.parent {
      DigitWins(a.parent, b.parent, w, p, q);
    } else if b.parent < a.parent {
      DigitWins(b.parent, a.parent, w, q, p);
    } else if binary && p == q {
      CompareEqual(a.name, b.name);
    }
  }

  lemma {:induction false} CompareEqual(a: Units, b: Units)
    ensures CompareUnits(a, b) == 0 <==> a == b
  {
    if a != [] && b != [] {
      CompareEqual(a[1..], b[1..]);
      assert a == [a[0]] + a[1..] && b == [b[0]] + b[1..];
    }
  }

  /** A private-data name with leading NUL units compares as if they were absent. */
  lemma LeadingNulsIgnored(nuls: Units, s: Units)
    requires forall i :: 0 <= i < |nuls| ==> nuls[i] == 0
    ensures CompareUnits(Folded(nuls + s), Folded(s)) == 0
  {
    FoldedNuls(nuls, s);
    CompareEqual(Folded(nuls + s), Folded(s));
  }

  lemma {:induction false} FoldedNuls(nuls: Units, s: Units)
    requires forall i :: 0 <= i < |nuls| ==> nuls[i] == 0
    ensures Folded(nuls + s) == Folded(s)
  {
    if nuls == [] {
      assert nuls + s == s;
    } else {
      FoldedNuls(nuls[1..], s);
      assert (nuls + s)[1..] == nuls[1..] + s;
    }
  }

  /** The parent of a ranked key. */
  lemma ParentOfRank(k: CatalogKey, binary: bool)
    requires NameOk(k.name)
    ensures CatalogRank(k, binary) / Weight(MAX_NAME) == k.parent
  {
    hide Weight, NameRank;
    FoldedOk(k.name);
    var r := NameRank(Compared(k.name, binary), MAX_NAME);
    NameRankBound(Compared(k.name, binary), MAX_NAME);
    Quotient(k.parent, Weight(MAX_NAME), r);
  }

  lemma Quotient(q: nat, w: nat, r: nat)
    requires w > 0 && r < w
    ensures (q * w + r) / w == q
  {
    var n := q * w + r;
    var d := n / w;
    assert n == d * w + n % w;
    if d < q {
      DigitWins(d, q, w, n % w, r);
    } else if q < d {
      DigitWins(q, d, w, r, n % w);
    }
  }
}
