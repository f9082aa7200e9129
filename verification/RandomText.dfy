/**
 * Random letters cut from 63-bit words, six bits at a time, rejecting digits that name no letter.
 * The source of words is a sequence; a call that needs more words than it holds has not returned.
 */
module RandomText {
  import opened Wrappers

  const LETTERS: nat := 52

  /** The alphabet of the source's constant CHARACTERS. */
  function Characters(): (s: string)
    ensures |s| == LETTERS
  {
    "abcdefghijklm" + "nopqrstuvwxyz" + "ABCDEFGHIJKLM" + "NOPQRSTUVWXYZ"
  }

  /** Thirteen letters in the order of the alphabet, from `first` on. */
  predicate InOrder(s: string, first: char) {
    |s| == 13 && forall i :: 0 <= i < 13 ==> s[i] as int == first as int + i
  }

  lemma QuartersInOrder()
    ensures InOrder("abcdefghijklm", 'a') && InOrder("nopqrstuvwxyz", 'n')
    ensures InOrder("ABCDEFGHIJKLM", 'A') && InOrder("NOPQRSTUVWXYZ", 'N')
  {
  }

  /** The small letters and then the capitals, in the order of the alphabet. */
  lemma AlphabetInOrder(d: nat)
    requires d < 52
    ensures LETTERS == 52
    ensures Characters()[d] as int == if d < 26 then 'a' as int + d else 'A' as int + (d - 26)
  {
    hide InOrder;
    QuartersInOrder();
    FourParts("abcdefghijklm", "nopqrstuvwxyz", "ABCDEFGHIJKLM", "NOPQRSTUVWXYZ", d);
  }

  lemma FourParts(s: string, t: string, u: string, v: string, d: nat)
    requires InOrder(s, 'a') && InOrder(t, 'n') && InOrder(u, 'A') && InOrder(v, 'N') && d < 52
    ensures (s + t + u + v)[d] as int == if d < 26 then 'a' as int + d else 'A' as int + (d - 26)
  {
  }

  const DIGITS_PER_WORD: nat := 10

  type word = n: nat | n < 0x8000_0000_0000_0000

  /** The masked low six bits of a word. */
  function LowDigit(w: nat): nat {
    w % 64
  }

  /** The word shifted right by six bits. */
  function Shifted(w: nat): nat {
    w / 64
  }

  /** The `n` lowest base-64 digits of `w`, lowest first. */
  function DigitsOf(w: nat, n: nat): (d: seq<nat>)
    ensures |d| == n
  {
    if n == 0 then [] else [LowDigit(w)] + DigitsOf(Shifted(w), n - 1)
  }

  /** The digit stream: ten digits of each word in turn. */
  function Stream(words: seq<word>): (d: seq<nat>)
    ensures |d| == DIGITS_PER_WORD * |words|
  {
    if words == [] then [] else DigitsOf(words[0], DIGITS_PER_WORD) + Stream(words[1..])
  }

  /** The letters of the digits that name one, in order. */
  function Letters(digits: seq<nat>): string {
    if digits == [] then ""
    else (if digits[0] < LETTERS then [Characters()[digits[0]]] else "") + Letters(digits[1..])
  }

  function Reversed(s: string): string {
    if s == "" then "" else Reversed(s[1..]) + [s[0]]
  }

  lemma {:induction false} LettersAppend(a: seq<nat>, b: seq<nat>)
    ensures Letters(a + b) == Letters(a) + Letters(b)
  {
    hide Characters;
    if a == [] {
      assert a + b == b;
    } else {
      assert (a + b)[1..] == a[1..] + b && (a + b)[0] == a[0];
      LettersAppend(a[1..], b);
      var first := if a[0] < LETTERS then [Characters()[a[0]]] else "";
      assert first + (Letters(a[1..]) + Letters(b)) == first + Letters(a[1..]) + Letters(b);
    }
  }

  lemma {:induction false} StreamAppend(a: seq<word>, b: seq<word>)
    ensures Stream(a + b) == Stream(a) + Stream(b)
  {
    if a == [] {
      assert a + b == b;
    } else {
      assert (a + b)[1..] == a[1..] + b;
      StreamAppend(a[1..], b);
    }
  }

  lemma {:induction false} ReversedAt(s: string, k: nat)
    requires k < |s|
    ensures |Reversed(s)| == |s| && Reversed(s)[|s| - 1 - k] == s[k]
  {
    if k > 0 {
      ReversedAt(s[1..], k - 1);
    } else {
      ReversedLength(s);
    }
  }

  lemma {:induction false} ReversedLength(s: string)
    ensures |Reversed(s)| == |s|
  {
    if s != "" {
      ReversedLength(s[1..]);
    }
  }

  lemma {:induction false} ReversedAppend(s: string, c: char)
    ensures Reversed(s + [c]) == [c] + Reversed(s)
  {
    if s == "" {
      assert s + [c] == [c] && Reversed([c][1..]) == "";
    } else {
      assert (s + [c])[1..] == s[1..] + [c];
      ReversedAppend(s[1..], c);
    }
  }

  lemma WordInStream(words: seq<word>, k: nat)
    requires k < |words|
    ensures Supplies(Stream(words), DIGITS_PER_WORD * k, words[k], DIGITS_PER_WORD)
  {
    hide DigitsOf, Stream;
    var a, b := words[..k], words[k..];
    assert words == a + b && b[0] == words[k];
    StreamAppend(a, b);
    StreamHead(b);
    SliceOfSecond(Stream(a), Stream(b), DIGITS_PER_WORD);
  }

  lemma StreamHead(words: seq<word>)
    requires words != []
    ensures Stream(words)[..DIGITS_PER_WORD] == DigitsOf(words[0], DIGITS_PER_WORD)
  {
  }

  lemma SliceOfSecond(a: seq<nat>, b: seq<nat>, n: nat)
    requires n <= |b|
    ensures (a + b)[|a|..|a| + n] == b[..n]
  {
  }

  /** Taking one more digit adds its letter, if it names one. */
  lemma LettersOfOneMore(all: seq<nat>, taken: nat)
    requires taken < |all|
    ensures all[taken] >= LETTERS ==> Letters(all[..taken + 1]) == Letters(all[..taken])
    ensures all[taken] < LETTERS ==>
              Reversed(Letters(all[..taken + 1])) == [Characters()[all[taken]]] + Reversed(Letters(all[..taken]))
  {
    assert all[..taken + 1] == all[..taken] + [all[taken]];
    LettersAppend(all[..taken], [all[taken]]);
    assert [all[taken]][1..] == [] && Letters([]) == "";
    assert Letters([all[taken]]) == if all[taken] < LETTERS then [Characters()[all[taken]]] else "";
    assert Letters(all[..taken]) + "" == Letters(all[..taken]);
    if all[taken] < LETTERS {
      ReversedAppend(Letters(all[..taken]), Characters()[all[taken]]);
    }
  }

  /** Words are drawn only when used up: `used` words in which at most nine digits are left over. */
  ghost predicate DrawnAsNeeded(words: seq<word>, used: nat, taken: nat) {
    1 <= used <= |words| && taken <= DIGITS_PER_WORD * used && (used > 1 ==> DIGITS_PER_WORD * (used - 1) < taken)
  }

  /** `used` words are drawn, `taken` digits cut, and the cache holds the others. */
  ghost predicate Drawing(src: seq<word>, used: nat, cache: nat, remain: nat, taken: nat) {
    && 1 <= used <= |src| && remain <= DIGITS_PER_WORD && (used > 1 ==> remain < DIGITS_PER_WORD)
    && taken + remain == DIGITS_PER_WORD * used
    && Supplies(Stream(src), taken, cache, remain)
  }

  lemma FirstWordDrawn(src: seq<word>)
    requires src != []
    ensures Drawing(src, 1, src[0], DIGITS_PER_WORD, 0)
  {
  }

  /** The words drawn are those needed for the digits cut. */
  lemma DrawnSoFar(src: seq<word>, used: nat, cache: nat, remain: nat, taken: nat)
    requires Drawing(src, used, cache, remain, taken)
    ensures DrawnAsNeeded(src, used, taken)
  {
  }

  /** The part of the loop that draws a word if none is left and cuts a digit off the cache. */
  method CutDigit(src: seq<word>, drawn: nat, word: nat, left: nat, ghost taken: nat)
    returns (ok: bool, j: nat, used: nat, cache: nat, remain: nat)
    requires Drawing(src, drawn, word, left, taken)
    ensures !ok ==> taken == |Stream(src)|
    ensures ok ==> taken < |Stream(src)| && j == Stream(src)[taken] && Drawing(src, used, cache, remain, taken + 1)
  {
    hide Supplies, Stream, LowDigit, Shifted;
    used, cache, remain := drawn, word, left;
    if remain == 0 {
      if used == |src| {
        return false, 0, used, cache, remain;
      }
      WordInStream(src, used);
      cache, used := src[used], used + 1;
      remain := DIGITS_PER_WORD;
    }
    j := LowDigit(cache);
    NextDigit(Stream(src), taken, cache, remain);
    cache := Shifted(cache);
    remain := remain - 1;
    ok := true;
  }

  /**
   * If the call returns, its text is the first `n` letters of the stream in reverse, and the digits
   * taken end with the n-th letter; the words drawn are those the digits came from.
   */
  method RandomStringLength(n: nat, src: seq<word>) returns (r: Option<string>, used: nat, ghost taken: nat)
    ensures r.None? <==> src == [] || |Letters(Stream(src))| < n
    ensures r.Some? ==> DrawnAsNeeded(src, used, taken)
    ensures r.Some? ==> r.value == Reversed(Letters(Stream(src)[..taken])) && |r.value| == n
    ensures r.Some? && n > 0 ==> EndsOnLetter(Stream(src), taken)
  {
    taken, used := 0, 0;
    var result := new char[n];
    if |src| == 0 {
      return None, 0, 0;
    }
    hide Drawing, Written, EndsOnLetter, Stream, Characters, Letters, Reversed, DrawnAsNeeded;
    var cache: nat, remain: nat := src[0], DIGITS_PER_WORD;
    used := 1;
    FirstWordDrawn(src);
    var i := n - 1;
    ghost var all, start, text := Stream(src), n, "";
    NothingWritten(all);
    while i >= 0
      invariant 0 <= start <= n && i == start - 1 && taken <= |all|
      invariant Drawing(src, used, cache, remain, taken)
      invariant text == result[..][start..] && Written(all, taken, text)
      invariant start == 0 < n ==> EndsOnLetter(all, taken)
      decreases |all| - taken
    {
      var ok: bool, j: nat;
      ok, j, used, cache, remain := CutDigit(src, used, cache, remain, taken);
      if !ok {
        WrittenLength(all, taken, text);
        return None, used, taken;
      }
      WriteNext(all, taken, text);
      if j < LETTERS {
        ghost var before := result[..];
        result[i] := Characters()[j];
        TailAfterWrite(before, i, Characters()[j]);
        start, text := i, [Characters()[j]] + text;
        i := i - 1;
      }
      taken := taken + 1;
    }
    WrittenLength(all, taken, text);
    DrawnSoFar(src, used, cache, remain, taken);
    assert start == 0 && text == result[..];
    return Some(result[..]), used, taken;
  }

  lemma TailAfterWrite(s: string, i: nat, c: char)
    requires i < |s|
    ensures s[i := c][i..] == [c] + s[i + 1..]
  {
  }

  /** The last digit taken names a letter. */
  ghost predicate EndsOnLetter(all: seq<nat>, taken: nat) {
    0 < taken <= |all| && all[taken - 1] < LETTERS
  }

  /** The cache holds the next `remain` digits of the stream. */
  ghost predicate Supplies(all: seq<nat>, taken: nat, cache: nat, remain: nat) {
    taken + remain <= |all| && all[taken..taken + remain] == DigitsOf(cache, remain)
  }

  /** The tail of the buffer filled so far. */
  ghost predicate Written(all: seq<nat>, taken: nat, text: string) {
    taken <= |all| && text == Reversed(Letters(all[..taken]))
  }

  lemma NothingWritten(all: seq<nat>)
    ensures Written(all, 0, [])
  {
  }

  lemma WriteNext(all: seq<nat>, taken: nat, text: string)
    requires Written(all, taken, text) && taken < |all|
    ensures all[taken] < LETTERS ==> EndsOnLetter(all, taken + 1)
    ensures if all[taken] < LETTERS then Written(all, taken + 1, [Characters()[all[taken]]] + text)
            else Written(all, taken + 1, text)
  {
    hide Letters, Reversed;
    LettersOfOneMore(all, taken);
  }

  lemma WrittenLength(all: seq<nat>, taken: nat, text: string)
    requires Written(all, taken, text)
    ensures text == Reversed(Letters(all[..taken])) && |text| <= |Letters(all)|
    ensures taken == |all| ==> |text| == |Letters(all)|
  {
    hide Letters, Reversed;
    ReversedLength(Letters(all[..taken]));
    LettersOfPrefix(all, taken);
    assert all[..|all|] == all;
  }

  lemma NextDigit(all: seq<nat>, taken: nat, cache: nat, remain: nat)
    requires 0 < remain && Supplies(all, taken, cache, remain)
    ensures taken < |all| && all[taken] == LowDigit(cache)
    ensures Supplies(all, taken + 1, Shifted(cache), remain - 1)
  {
  }

  lemma LettersOfPrefix(all: seq<nat>, taken: nat)
    requires taken <= |all|
    ensures |Letters(all[..taken])| <= |Letters(all)|
  {
    LettersAppend(all[..taken], all[taken..]);
    assert all == all[..taken] + all[taken..];
  }

  /** The k-th letter drawn stands k places before the end. */
  lemma KthLetterFromTheEnd(n: nat, text: string, digits: seq<nat>, k: nat)
    requires text == Reversed(Letters(digits)) && |text| == n && k < n
    ensures |Letters(digits)| == n && text[n - 1 - k] == Letters(digits)[k]
  {
    ReversedLength(Letters(digits));
    ReversedAt(Letters(digits), k);
  }

  /** Letters keeps exactly the digits below 52, each as the letter it names. */
  function KeptDigits(digits: seq<nat>): seq<nat> {
    if digits == [] then []
    else (if digits[0] < LETTERS then [digits[0]] else []) + KeptDigits(digits[1..])
  }

  lemma {:induction false} LettersAreKeptDigits(digits: seq<nat>)
    ensures |Letters(digits)| == |KeptDigits(digits)|
    ensures forall k :: 0 <= k < |KeptDigits(digits)| ==>
              KeptDigits(digits)[k] < LETTERS && Letters(digits)[k] == Characters()[KeptDigits(digits)[k]]
  {
    if digits != [] {
      LettersAreKeptDigits(digits[1..]);
    }
  }

  /** Six bits at a time: digit `i` of a word is its bits 6i to 6i+5. */
  lemma {:induction false} DigitIsSixBits(w: nat, n: nat, i: nat)
    requires i < n
    ensures DigitsOf(w, n)[i] == w / Power64(i) % 64
  {
    if i > 0 {
      DigitIsSixBits(w / 64, n - 1, i - 1);
      DivideTwice(w, Power64(i - 1));
    }
  }

  function Power64(i: nat): (p: nat)
    ensures p > 0
  {
    if i == 0 then 1 else 64 * Power64(i - 1)
  }

  /** The stream holds ten digits of each word: digit `i` is digit `i % 10` of word `i / 10`. */
  lemma {:induction false} StreamIsTenDigitsEach(words: seq<word>, i: nat)
    requires i < 10 * |words|
    ensures |Stream(words)| == 10 * |words|
    ensures Stream(words)[i] == words[i / 10] / Power64(i % 10) % 64
  {
    hide Power64, DigitsOf;
    assert DIGITS_PER_WORD == 10;
    var first := DigitsOf(words[0], 10);
    assert Stream(words) == first + Stream(words[1..]);
    if i < 10 {
      DigitIsSixBits(words[0], 10, i);
    } else {
      StreamIsTenDigitsEach(words[1..], i - 10);
      assert (i - 10) / 10 == i / 10 - 1 && (i - 10) % 10 == i % 10;
    }
  }

  lemma DivideTwice(w: nat, p: nat)
    requires p > 0
    ensures w / 64 / p == w / (64 * p)
  {
    var q := w / 64 / p;
    var r := w / 64 % p;
    assert w / 64 == q * p + r;
    assert w == 64 * (q * p + r) + w % 64;
    assert w == q * (64 * p) + (64 * r + w % 64);
    assert 0 <= 64 * r + w % 64 < 64 * p;
    UniqueQuotient(w, 64 * p, q, 64 * r + w % 64);
  }

  lemma UniqueQuotient(w: nat, d: nat, q: nat, r: nat)
    requires d > 0 && r < d && w == q * d + r
    ensures w / d == q
  {
    var m := w / d - q;
    assert w == w / d * d + w % d;
    assert m * d == r - w % d;
    MultipleIsFar(m, d);
  }

  lemma MultipleIsFar(m: int, d: int)
    requires d > 0
    ensures m > 0 ==> m * d >= d
    ensures m < 0 ==> m * d <= -d
  {
  }
}
