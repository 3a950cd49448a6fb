/** Binary literals for 16-bit words: `word_from_string` reads the '0' and '1'
    characters of a C string, most significant first, and ignores every other
    character, so literals may carry spaces and comments. */
module BinLit {
  import opened Words

  /** Number of characters before the first NUL: the part of the buffer `s`
      that a C string scan reads. */
  function CLength(s: seq<char>): (n: nat)
    ensures n <= |s|
    ensures forall j :: 0 <= j < n ==> s[j] != '\0'
    ensures n < |s| ==> s[n] == '\0'
  {
    if s == [] || s[0] == '\0' then 0 else 1 + CLength(s[1..])
  }

  /** The digits one character contributes: one for '0' or '1', none otherwise. */
  function DigitsOf(c: char): seq<bool>
  {
    if c == '1' then [true] else if c == '0' then [false] else []
  }

  /** The binary digits of t in order (true for '1'), every other character dropped. */
  function Digits(t: seq<char>): seq<bool>
  {
    if t == [] then [] else Digits(t[..|t| - 1]) + DigitsOf(t[|t| - 1])
  }

  /** The digits `word_from_string` keeps from the C string held in `source`. */
  function Kept(source: seq<char>): seq<bool>
  {
    Digits(source[..CLength(source)])
  }

  /** bits read as a binary number, most significant first:
      the sum of 2^(|bits|-1-i) over every i with bits[i] set. */
  function BitsValue(bits: seq<bool>): nat
  {
    if bits == [] then 0 else (if bits[0] then Pow2(|bits| - 1) else 0) + BitsValue(bits[1..])
  }

  /** Keeping the digits of a concatenation keeps those of each part, in order. */
  lemma {:induction false} DigitsAppend(a: seq<char>, b: seq<char>)
    ensures Digits(a + b) == Digits(a) + Digits(b)
    decreases |b|
  {
    if b == [] {
      assert a + b == a;
    } else {
      var c := b[|b| - 1];
      var b' := b[..|b| - 1];
      assert a + b == (a + b') + [c];
      assert (a + b)[..|a + b| - 1] == a + b';
      assert b[..|b| - 1] == b';
      DigitsAppend(a, b');
    }
  }

  /** Any character other than '0' and '1' may be inserted anywhere without
      changing the digits kept: comments and spaces are ignored. */
  lemma IgnoresOtherCharacters(a: seq<char>, c: char, b: seq<char>)
    requires c != '0' && c != '1'
    ensures Digits(a + [c] + b) == Digits(a + b)
  {
    DigitsAppend(a + [c], b);
    DigitsAppend(a, b);
    assert (a + [c])[..|a + [c]| - 1] == a;
  }

  /** Every '0' or '1' character is kept: the digits kept are exactly as many
      as the digit characters. */
  lemma {:induction false} DigitsCount(t: seq<char>)
    ensures |Digits(t)| == |set i | 0 <= i < |t| && (t[i] == '0' || t[i] == '1')|
    decreases |t|
  {
    if t != [] {
      var t' := t[..|t| - 1];
      DigitsCount(t');
      var s := set i | 0 <= i < |t| && (t[i] == '0' || t[i] == '1');
      var s' := set i | 0 <= i < |t'| && (t'[i] == '0' || t'[i] == '1');
      assert forall i :: 0 <= i < |t'| ==> t'[i] == t[i];
      assert Digits(t) == Digits(t') + DigitsOf(t[|t| - 1]);
      if t[|t| - 1] == '0' || t[|t| - 1] == '1' {
        assert s == s' + {|t| - 1};
        assert |t| - 1 !in s';
        assert |s| == |s'| + 1;
      } else {
        assert s == s';
      }
    }
  }

  /** n binary digits are worth less than 2^n, so 16 digits fit in a word. */
  lemma {:induction false} BitsValueBound(bits: seq<bool>)
    ensures BitsValue(bits) < Pow2(|bits|)
    decreases |bits|
  {
    if bits != [] {
      BitsValueBound(bits[1..]);
    }
  }

  /** One character further into the scan: its digit, if any, is appended,
      and the digits so far never outnumber those of the whole string. */
  lemma ScanStep(s: seq<char>, i: nat, len: nat)
    requires i < len <= |s|
    ensures Digits(s[..i + 1]) == Digits(s[..i]) + DigitsOf(s[i])
    ensures |Digits(s[..i + 1])| <= |Digits(s[..len])|
  {
    assert s[..i + 1][..i] == s[..i];
    DigitsAppend(s[..i + 1], s[i + 1..len]);
    assert s[..i + 1] + s[i + 1..len] == s[..len];
  }

  /** The value of the digits from k on: digit k weighs 2^(|b|-1-k). */
  lemma BitsValueStep(b: seq<bool>, k: nat)
    requires k < |b|
    ensures BitsValue(b[k..]) == (if b[k] then Pow2(|b| - 1 - k) else 0) + BitsValue(b[k + 1..])
  {
    assert b[k..][1..] == b[k + 1..];
  }

  /** The first loop of `word_from_string`: walk the C string up to its
      terminating NUL, writing each '0' or '1' met into `clean` as a bit. */
  method ScanDigits(source: seq<char>) returns (clean: array<bool>)
    requires |Kept(source)| == 16
    ensures fresh(clean) && clean[..] == Kept(source)
  {
    var len := CLength(source);
    clean := new bool[16];
    var nChars := 0;
    var i := 0;
    while i < |source| && source[i] != '\0'
      invariant i <= len
      invariant nChars == |Digits(source[..i])| <= 16
      invariant clean[..nChars] == Digits(source[..i])
    {
      ScanStep(source, i, len);
      var c := source[i];
      i := i + 1;
      if c == '1' {
        clean[nChars] := true;
        nChars := nChars + 1;
      } else if c == '0' {
        clean[nChars] := false;
        nChars := nChars + 1;
      }
    }
    assert source[..i] == source[..len];
    assert clean[..] == clean[..nChars];
  }

  /** `word_from_string`: the 16 binary digits of the C string `source`, read
      most significant first. The source asserts that there are exactly 16
      digits; with more, it would already have written past `clean[16]`.
      The result is a `uint16_t`: the sum never reaches 2^16, so no addition
      to it wraps. */
  method WordFromString(source: seq<char>) returns (result: nat)
    requires |Kept(source)| == 16
    ensures result == BitsValue(Kept(source))
    ensures result < 0x1_0000
  {
    var clean := ScanDigits(source);
    result := 0;
    var p := 16;
    while p > 0
      invariant 0 <= p <= 16
      invariant clean[..] == Kept(source)
      invariant result + BitsValue(clean[16 - p..]) == BitsValue(clean[..])
    {
      BitsValueStep(clean[..], 16 - p);
      if clean[16 - p] {
        result := result + Pow2(p - 1);
      }
      p := p - 1;
    }
    assert clean[16..] == [];
    BitsValueBound(clean[..]);
    Pow2Values();
  }

  /** A run of characters none of which is a digit keeps nothing. */
  lemma {:induction false} NoDigits(t: seq<char>)
    requires '0' !in t && '1' !in t
    ensures Digits(t) == []
    decreases |t|
  {
    if t != [] {
      assert t[..|t| - 1] <= t;
      NoDigits(t[..|t| - 1]);
    }
  }

  /** A run made only of digit characters keeps every one of them. */
  lemma {:induction false} AllDigits(t: seq<char>)
    requires forall j :: 0 <= j < |t| ==> t[j] == '0' || t[j] == '1'
    ensures Digits(t) == seq(|t|, j requires 0 <= j < |t| => t[j] == '1')
    decreases |t|
  {
    if t != [] {
      AllDigits(t[..|t| - 1]);
    }
  }

  /** A C string with no NUL in it is scanned to its end. */
  lemma KeptWithoutNul(s: seq<char>)
    requires '\0' !in s
    ensures Kept(s) == Digits(s)
  {
    assert s[..CLength(s)] == s;
  }

  /** Reading a + b as a binary number shifts a's value left by |b| bits. */
  lemma {:induction false} BitsValueAppend(a: seq<bool>, b: seq<bool>)
    ensures BitsValue(a + b) == BitsValue(a) * Pow2(|b|) + BitsValue(b)
    decreases |a|
  {
    if a == [] {
      assert a + b == b;
    } else {
      var p, rest := Pow2(|b|), BitsValue(a[1..]);
      var head := if a[0] then Pow2(|a| - 1) else 0;
      assert (a + b)[1..] == a[1..] + b;
      assert (a + b)[0] == a[0];
      assert BitsValue(a + b) == (if a[0] then Pow2(|a| - 1 + |b|) else 0) + BitsValue(a[1..] + b);
      Pow2Add(|a| - 1, |b|);
      assert (if a[0] then Pow2(|a| - 1 + |b|) else 0) == head * p;
      BitsValueAppend(a[1..], b);
      assert BitsValue(a) == head + rest;
      Distribute(head, rest, p);
    }
  }

  lemma Distribute(x: int, y: int, z: int)
    ensures x * z + y * z == (x + y) * z
  {
  }

  /** The value of four binary digits. */
  lemma NibbleValue(b: seq<bool>)
    requires |b| == 4
    ensures BitsValue(b) == (if b[0] then 8 else 0) + (if b[1] then 4 else 0) + (if b[2] then 2 else 0) + (if b[3] then 1 else 0)
  {
    BitsValueStep(b, 0);
    BitsValueStep(b, 1);
    BitsValueStep(b, 2);
    BitsValueStep(b, 3);
    assert b[0..] == b;
    assert b[4..] == [];
    assert Pow2(3) == 8;
  }

  /** Sixteen binary digits in four groups of four read as four hex digits. */
  lemma {:induction false} HexValue(n3: seq<bool>, n2: seq<bool>, n1: seq<bool>, n0: seq<bool>)
    requires |n3| == |n2| == |n1| == |n0| == 4
    ensures BitsValue(n3 + n2 + n1 + n0) ==
      BitsValue(n3) * 0x1000 + BitsValue(n2) * 0x100 + BitsValue(n1) * 0x10 + BitsValue(n0)
  {
    Pow2Values();
    BitsValueAppend(n3, n2);
    BitsValueAppend(n3 + n2, n1);
    BitsValueAppend(n3 + n2 + n1, n0);
  }

  /** A group of four digit characters and its value. */
  predicate IsGroup(g: seq<char>)
  {
    |g| == 4 && forall j :: 0 <= j < 4 ==> g[j] == '0' || g[j] == '1'
  }

  /** Text between groups: no digit and no NUL. */
  predicate IsFiller(c: seq<char>)
  {
    '0' !in c && '1' !in c && '\0' !in c
  }

  /** The value of a group of four digit characters. */
  lemma GroupValue(g: seq<char>)
    requires IsGroup(g)
    ensures |Digits(g)| == 4
    ensures BitsValue(Digits(g)) == (if g[0] == '1' then 8 else 0) + (if g[1] == '1' then 4 else 0) + (if g[2] == '1' then 2 else 0) + (if g[3] == '1' then 1 else 0)
  {
    AllDigits(g);
    NibbleValue(Digits(g));
  }

  /** A group followed by its filler keeps the group's four digits. */
  lemma GroupThenFiller(g: seq<char>, c: seq<char>)
    requires IsGroup(g) && IsFiller(c)
    ensures Digits(g + c) == Digits(g) && |Digits(g)| == 4
    ensures '\0' !in g + c
  {
    NoDigits(c);
    AllDigits(g);
    DigitsAppend(g, c);
    assert '\0' !in g;
  }

  /** A literal made of four groups of four digits, each followed by text
      without digits, reads as the four groups taken as hex digits. */
  lemma {:induction false} FourGroups(g3: seq<char>, c3: seq<char>, g2: seq<char>, c2: seq<char>,
                                      g1: seq<char>, c1: seq<char>, g0: seq<char>, c0: seq<char>)
    requires IsGroup(g3) && IsGroup(g2) && IsGroup(g1) && IsGroup(g0)
    requires IsFiller(c3) && IsFiller(c2) && IsFiller(c1) && IsFiller(c0)
    ensures BitsValue(Kept((g3 + c3) + (g2 + c2) + (g1 + c1) + (g0 + c0))) ==
      BitsValue(Digits(g3)) * 0x1000 + BitsValue(Digits(g2)) * 0x100 + BitsValue(Digits(g1)) * 0x10 + BitsValue(Digits(g0))
  {
    var p3, p2, p1, p0 := g3 + c3, g2 + c2, g1 + c1, g0 + c0;
    GroupThenFiller(g3, c3);
    GroupThenFiller(g2, c2);
    GroupThenFiller(g1, c1);
    GroupThenFiller(g0, c0);
    DigitsAppend(p3, p2);
    DigitsAppend(p3 + p2, p1);
    DigitsAppend(p3 + p2 + p1, p0);
    var s := p3 + p2 + p1 + p0;
    assert '\0' !in s;
    KeptWithoutNul(s);
    HexValue(Digits(g3), Digits(g2), Digits(g1), Digits(g0));
  }

  /** The literal of the header's documentation: 0x9. */
  lemma DocumentedExample()
    ensures BitsValue(Kept("0000 0000 0000 1001")) == 0x9
  {
    assert "0000 0000 0000 1001" == ("0000" + " ") + ("0000" + " ") + ("0000" + " ") + ("1001" + "");
    GroupValue("0000");
    GroupValue("1001");
    FourGroups("0000", " ", "0000", " ", "0000", " ", "1001", "");
  }

  lemma CommentedSplit()
    ensures "0000:some zeroes; " == "0000" + ":some zeroes; "
    ensures "0000(more zeores); " == "0000" + "(more zeores); "
    ensures "0000 ^^; " == "0000" + " ^^; "
    ensures "1001 finally! some ones" == "1001" + " finally! some ones"
  {
  }

  lemma FillerText()
    ensures IsFiller(":some zeroes; ") && IsFiller("(more zeores); ")
    ensures IsFiller(" ^^; ") && IsFiller(" finally! some ones")
  {
    assert IsFiller(":some zeroes; ");
    assert IsFiller("(more zeores); ");
    assert IsFiller(" ^^; ");
  }

  /** The header's commented literal, four adjacent C string literals: the
      text around the digits is ignored and the value is again 0x9. */
  lemma CommentedExample()
    ensures BitsValue(Kept("0000:some zeroes; " + "0000(more zeores); " + "0000 ^^; " + "1001 finally! some ones")) == 0x9
  {
    CommentedSplit();
    FillerText();
    GroupValue("0000");
    GroupValue("1001");
    FourGroups("0000", ":some zeroes; ", "0000", "(more zeores); ", "0000", " ^^; ", "1001", " finally! some ones");
  }

  /** A run of digit characters followed by one space keeps the run's digits. */
  lemma RunThenSpace(r: seq<char>)
    requires forall j :: 0 <= j < |r| ==> r[j] == '0' || r[j] == '1'
    ensures Digits(r + " ") == seq(|r|, j requires 0 <= j < |r| => r[j] == '1')
    ensures '\0' !in r + " "
  {
    AllDigits(r);
    NoDigits(" ");
    DigitsAppend(r, " ");
    assert '\0' !in r;
  }

  lemma AddImmediateSplit()
    ensures "0001 000 000 1 00001" == ("0001" + " ") + ("000" + " ") + ("000" + " ") + ("1" + " ") + "00001"
  {
  }

  /** The digits a run of '0' and '1' keeps, read off one by one. */
  lemma RunDigits(r: seq<char>, bits: seq<bool>)
    requires |r| == |bits|
    requires forall j :: 0 <= j < |r| ==> (r[j] == '0' && !bits[j]) || (r[j] == '1' && bits[j])
    ensures Digits(r + " ") == bits && '\0' !in r + " "
  {
    RunThenSpace(r);
  }

  /** The digits of the last group of the test instruction. */
  lemma LastGroupDigits()
    ensures Digits("00001") == [false, false, false, false, true] && '\0' !in "00001"
  {
    AllDigits("00001");
  }

  /** The test instruction's digits, regrouped from its fields into nibbles. */
  lemma AddImmediateNibbles()
    ensures [false, false, false, true] + [false, false, false] + [false, false, false] + [true] + [false, false, false, false, true] ==
      [false, false, false, true] + [false, false, false, false] + [false, false, true, false] + [false, false, false, true]
  {
  }

  /** The digits the test instruction `0001 000 000 1 00001` keeps. */
  lemma AddImmediateDigits(text: seq<char>)
    requires text == "0001 000 000 1 00001"
    ensures Kept(text) ==
      [false, false, false, true] + [false, false, false, false] + [false, false, true, false] + [false, false, false, true]
  {
    AddImmediateSplit();
    var p0, p1, p2, p3 := "0001" + " ", "000" + " ", "000" + " ", "1" + " ";
    var p4 := "00001";
    RunDigits("0001", [false, false, false, true]);
    RunDigits("000", [false, false, false]);
    RunDigits("1", [true]);
    LastGroupDigits();
    DigitsAppend(p0, p1);
    DigitsAppend(p0 + p1, p2);
    DigitsAppend(p0 + p1 + p2, p3);
    DigitsAppend(p0 + p1 + p2 + p3, p4);
    var s := p0 + p1 + p2 + p3 + p4;
    KeptWithoutNul(s);
    assert Kept(s) == [false, false, false, true] + [false, false, false] + [false, false, false] + [true] + [false, false, false, false, true];
    AddImmediateNibbles();
  }

  /** The test instruction `0001 000 000 1 00001` (ADD, DR R0, SR1 R0,
      immediate mode, imm5 1) is the word 0x1021. */
  lemma AddImmediateLiteral(text: seq<char>)
    requires text == "0001 000 000 1 00001"
    ensures BitsValue(Kept(text)) == 0x1021
  {
    AddImmediateDigits(text);
    var n3, n2, n1, n0 := [false, false, false, true], [false, false, false, false], [false, false, true, false], [false, false, false, true];
    NibbleValue(n3);
    NibbleValue(n2);
    NibbleValue(n1);
    NibbleValue(n0);
    HexValue(n3, n2, n1, n0);
  }

  /** The number spelled by the '0' and '1' characters among the first n of
      t, read by Horner's rule: each digit doubles what came before and adds
      itself; other characters leave it unchanged. */
  function HornerValue(t: seq<char>, n: nat): nat
    requires n <= |t|
  {
    if n == 0 then 0
    else if t[n - 1] == '1' then 2 * HornerValue(t, n - 1) + 1
    else if t[n - 1] == '0' then 2 * HornerValue(t, n - 1)
    else HornerValue(t, n - 1)
  }

  /** How many '0' and '1' characters are among the first n of t. */
  function DigitCount(t: seq<char>, n: nat): nat
    requires n <= |t|
  {
    if n == 0 then 0
    else if t[n - 1] == '1' || t[n - 1] == '0' then DigitCount(t, n - 1) + 1
    else DigitCount(t, n - 1)
  }

  /** Horner's rule agrees with the positional weights of BitsValue: the two
      readings of the digits of a prefix give the same number. */
  lemma {:induction false} HornerAgrees(t: seq<char>, n: nat)
    requires n <= |t|
    ensures BitsValue(Digits(t[..n])) == HornerValue(t, n)
    ensures |Digits(t[..n])| == DigitCount(t, n)
    decreases n
  {
    if n > 0 {
      HornerAgrees(t, n - 1);
      assert t[..n][..n - 1] == t[..n - 1];
      var d := DigitsOf(t[n - 1]);
      assert Digits(t[..n]) == Digits(t[..n - 1]) + d;
      BitsValueAppend(Digits(t[..n - 1]), d);
      assert Pow2(1) == 2;
    }
  }

  /** A C string without NUL read through its characters one by one: how
      many digits `word_from_string` keeps from it, and their value. */
  lemma LiteralValue(t: seq<char>, n: nat)
    requires '\0' !in t && n == |t|
    ensures |Kept(t)| == DigitCount(t, n)
    ensures BitsValue(Kept(t)) == HornerValue(t, n)
  {
    KeptWithoutNul(t);
    HornerAgrees(t, n);
    assert t[..n] == t;
  }
}
