/** The 64-bit string hash of switch/switch.cpp, once as a loop and once as a recursion. A C string is a
    buffer of bytes with a zero in it; `char` is signed, so a byte above 127 is sign-extended. */
module StringHash {
  type Char = bv8
  type Hash = bv64

  const BASIS: Hash := 0xCBF2_9CE4_8422_2325

  /** The value a `char` takes in the 64-bit exclusive or. */
  function Extend(c: Char): Hash {
    if c < 0x80 then c as Hash else (c as Hash) | 0xFFFF_FFFF_FFFF_FF00
  }

  /** Multiplication by the prime. */
  function Times(h: Hash): Hash {
    h * 0x100_0000_01B3
  }

  /** Multiplication by the inverse of the prime modulo 2^64. */
  function Over(h: Hash): Hash {
    h * 0xCE96_5057_AFF6_957B
  }

  function Mix(c: Char, h: Hash): Hash {
    Times(Extend(c) ^ h)
  }

  function Unmix(c: Char, h: Hash): Hash {
    Extend(c) ^ Over(h)
  }

  predicate Terminated(str: seq<Char>) {
    str != [] && (str[0] == 0 || Terminated(str[1..]))
  }

  /** `hash_compile_time`. */
  function HashCompileTime(str: seq<Char>, lastValue: Hash): Hash
    requires Terminated(str)
  {
    if str[0] != 0 then HashCompileTime(str[1..], Mix(str[0], lastValue)) else lastValue
  }

  /** `hash_`: the loop computes what the recursion does. */
  method HashLoop(str: seq<Char>) returns (ret: Hash)
    requires Terminated(str)
    ensures ret == HashCompileTime(str, BASIS)
  {
    hide Mix;
    ret := BASIS;
    var i := 0;
    while str[i] != 0
      invariant i < |str| && Terminated(str[i..])
      invariant HashCompileTime(str[i..], ret) == HashCompileTime(str, BASIS)
      decreases |str| - i
    {
      assert str[i..][1..] == str[i + 1..];
      ret := Mix(str[i], ret);
      i := i + 1;
    }
  }

  /** The characters before the terminating zero. */
  function Text(str: seq<Char>): (text: seq<Char>)
    requires Terminated(str)
    ensures |text| < |str| && text == str[..|text|] && str[|text|] == 0 && 0 !in text
  {
    if str[0] == 0 then [] else [str[0]] + Text(str[1..])
  }

  /** The hash as a function of the text alone, the last character mixed in last. */
  function Fold(text: seq<Char>, h: Hash): Hash {
    if text == [] then h else Mix(text[|text| - 1], Fold(text[..|text| - 1], h))
  }

  lemma {:induction false} FoldAppend(a: seq<Char>, b: seq<Char>, h: Hash)
    ensures Fold(a + b, h) == Fold(b, Fold(a, h))
  {
    hide Mix;
    if b == [] {
      assert a + b == a;
    } else {
      FoldAppend(a, b[..|b| - 1], h);
      assert (a + b)[..|a + b| - 1] == a + b[..|b| - 1];
    }
  }

  /** Nothing but the text counts. */
  lemma {:induction false} HashIsFold(str: seq<Char>, h: Hash)
    requires Terminated(str)
    ensures HashCompileTime(str, h) == Fold(Text(str), h)
  {
    hide Mix;
    if str[0] != 0 {
      HashIsFold(str[1..], Mix(str[0], h));
      FoldAppend([str[0]], Text(str[1..]), h);
      assert Fold([str[0]], h) == Mix(str[0], Fold([], h));
    }
  }

  /** It is the 64-bit FNV-1a hash, and a byte above 127 enters it sign-extended: two values worked out. */
  lemma KnownHashes()
    ensures HashCompileTime([0x61, 0], BASIS) == 0xAF63_DC4C_8601_EC8C
    ensures HashCompileTime([0xFF, 0], BASIS) == 0x509C_41B3_79FE_466E
  {
    assert [0x61 as Char, 0][1..] == [0 as Char];
    assert [0xFF as Char, 0][1..] == [0 as Char];
  }

  // ---- Every suffix is a bijection on the hash ----

  lemma OverProduct(h: Hash)
    ensures Over(h * 0x100_0000_01B3) == h
  {
  }

  lemma TimesProduct(h: Hash)
    ensures Times(h * 0xCE96_5057_AFF6_957B) == h
  {
  }

  lemma OverTimes(h: Hash)
    ensures Over(Times(h)) == h
  {
    hide Over;
    OverProduct(h);
  }

  lemma TimesOver(h: Hash)
    ensures Times(Over(h)) == h
  {
    hide Times;
    TimesProduct(h);
  }

  lemma XorTwice(x: Hash, h: Hash)
    ensures x ^ (x ^ h) == h
  {
  }

  lemma UnmixMix(c: Char, h: Hash)
    ensures Unmix(c, Mix(c, h)) == h
  {
    hide Times, Over, Extend;
    UndoXor(Extend(c), h, Mix(c, h));
  }

  lemma UndoXor(x: Hash, h: Hash, y: Hash)
    requires y == Times(x ^ h)
    ensures x ^ Over(y) == h
  {
    hide Times, Over;
    OverTimes(x ^ h);
    XorTwice(x, h);
  }

  lemma MixUnmix(c: Char, h: Hash)
    ensures Mix(c, Unmix(c, h)) == h
  {
    hide Times, Over, Extend;
    TimesOver(h);
    XorTwice(Extend(c), Over(h));
  }

  function Unfold(text: seq<Char>, h: Hash): Hash {
    if text == [] then h else Unfold(text[..|text| - 1], Unmix(text[|text| - 1], h))
  }

  lemma {:induction false} UnfoldFold(text: seq<Char>, h: Hash)
    ensures Unfold(text, Fold(text, h)) == h
    ensures Fold(text, Unfold(text, h)) == h
  {
    hide Mix, Unmix;
    if text != [] {
      var init, last := text[..|text| - 1], text[|text| - 1];
      UnmixMix(last, Fold(init, h));
      UnfoldFold(init, h);
      MixUnmix(last, h);
      UnfoldFold(init, Unmix(last, h));
    }
  }

  /** With the same characters after it, a difference neither vanishes nor appears: strings that end alike
      collide exactly when what is in front does. */
  lemma CommonSuffix(a: seq<Char>, b: seq<Char>, suffix: seq<Char>)
    ensures Fold(a + suffix, BASIS) == Fold(b + suffix, BASIS) <==> Fold(a, BASIS) == Fold(b, BASIS)
  {
    hide Fold, Unfold;
    FoldAppend(a, suffix, BASIS);
    FoldAppend(b, suffix, BASIS);
    UnfoldFold(suffix, Fold(a, BASIS));
    UnfoldFold(suffix, Fold(b, BASIS));
  }

  lemma ExtendInjective(c: Char, d: Char)
    ensures Extend(c) == Extend(d) <==> c == d
  {
  }

  lemma XorInjective(x: Hash, y: Hash, h: Hash)
    requires x ^ h == y ^ h
    ensures x == y
  {
  }

  lemma MixInjective(c: Char, d: Char, h: Hash)
    requires Mix(c, h) == Mix(d, h)
    ensures c == d
  {
    hide Extend, Mix, Times, Over;
    MixIsTimes(c, h);
    MixIsTimes(d, h);
    TimesXorInjective(Extend(c), Extend(d), h);
    ExtendInjective(c, d);
  }

  lemma MixIsTimes(c: Char, h: Hash)
    ensures Mix(c, h) == Times(Extend(c) ^ h)
  {
    hide Extend, Times;
  }

  lemma TimesXorInjective(x: Hash, y: Hash, h: Hash)
    requires Times(x ^ h) == Times(y ^ h)
    ensures x == y
  {
    hide Times, Over;
    TimesInjective(x ^ h, y ^ h);
    XorInjective(x, y, h);
  }

  lemma TimesInjective(x: Hash, y: Hash)
    requires Times(x) == Times(y)
    ensures x == y
  {
    hide Times, Over;
    OverTimes(x);
    OverTimes(y);
  }

  lemma EqualAround(a: seq<Char>, b: seq<Char>, i: nat)
    requires |a| == |b| && i < |a|
    requires forall k :: 0 <= k < |a| ==> (a[k] == b[k] <==> k != i)
    ensures a[..i] == b[..i] && a[i + 1..] == b[i + 1..] && a[i] != b[i]
  {
  }

  /** Two C strings whose texts have the same length and differ in exactly one character never collide. */
  lemma OneCharacterDiffers(s: seq<Char>, t: seq<Char>, i: nat)
    requires Terminated(s) && Terminated(t)
    requires |Text(s)| == |Text(t)| && i < |Text(s)|
    requires forall k :: 0 <= k < |Text(s)| ==> (Text(s)[k] == Text(t)[k] <==> k != i)
    ensures HashCompileTime(s, BASIS) != HashCompileTime(t, BASIS)
  {
    HashIsFold(s, BASIS);
    HashIsFold(t, BASIS);
    hide Fold, Mix, HashCompileTime, Terminated, Text;
    EqualAround(Text(s), Text(t), i);
    FoldsDiffer(Text(s), Text(t), i);
  }

  lemma FoldsDiffer(a: seq<Char>, b: seq<Char>, i: nat)
    requires i < |a| && i < |b| && a[i] != b[i]
    requires a[..i] == b[..i] && a[i + 1..] == b[i + 1..]
    ensures Fold(a, BASIS) != Fold(b, BASIS)
  {
    hide Fold, Mix;
    var front := a[..i];
    Around(a, i);
    Around(b, i);
    CommonSuffix(front + [a[i]], front + [b[i]], a[i + 1..]);
    FoldLast(front, a[i]);
    FoldLast(front, b[i]);
    if Mix(a[i], Fold(front, BASIS)) == Mix(b[i], Fold(front, BASIS)) {
      MixInjective(a[i], b[i], Fold(front, BASIS));
    }
  }

  lemma Around(text: seq<Char>, i: nat)
    requires i < |text|
    ensures text == (text[..i] + [text[i]]) + text[i + 1..]
  {
  }

  lemma FoldLast(text: seq<Char>, c: Char)
    ensures Fold(text + [c], BASIS) == Mix(c, Fold(text, BASIS))
  {
    hide Mix;
    assert (text + [c])[..|text|] == text;
  }
}
