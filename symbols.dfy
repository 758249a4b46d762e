/**
 * PrangsterApp.ConvertSymbolsToNumbers: the alphabet codec that reads an
 * observed output string as numbers, one per symbol, each the position of
 * the symbol in a caller-supplied alphabet. Whitespace that is not in the
 * alphabet is skipped; any other symbol outside the alphabet, or a symbol
 * the alphabet holds twice, makes the whole conversion fail (null in the
 * source, None here; the message the source writes to the error stream is
 * not modelled).
 */
module Symbols {
  import opened Common

  /**
   * Char.IsWhiteSpace: the characters of the Unicode categories
   * SpaceSeparator, LineSeparator and ParagraphSeparator, and the controls
   * U+0009 to U+000D and U+0085.
   */
  predicate IsWhiteSpace(c: char) {
    var n := c as int;
    (0x09 <= n <= 0x0D) || n == 0x20 || n == 0x85 || n == 0xA0 || n == 0x1680 ||
    (0x2000 <= n <= 0x200A) || n == 0x2028 || n == 0x2029 || n == 0x202F || n == 0x205F || n == 0x3000
  }

  /** String.IndexOf(c, from): the first position at or after from holding c, or -1. */
  function IndexOf(a: string, c: char, from: nat): (r: int)
    ensures -1 <= r < |a|
    ensures r >= 0 ==> from <= r && a[r] == c && forall k :: from <= k < r ==> a[k] != c
    ensures r < 0 ==> forall k :: from <= k < |a| ==> a[k] != c
    decreases |a| - from
  {
    if from >= |a| then -1
    else if a[from] == c then from
    else IndexOf(a, c, from + 1)
  }

  /** One symbol: skipped (Some(ns) unchanged), appended, or the failure. */
  function ConvertSymbol(numbers: seq<nat>, c: char, alphabet: string): Option<seq<nat>> {
    var j := IndexOf(alphabet, c, 0);
    if j < 0 then
      if IsWhiteSpace(c) then Some(numbers) else None
    else if j + 1 < |alphabet| && IndexOf(alphabet, c, j + 1) >= 0 then None
    else Some(numbers + [j])
  }

  /** The conversion of the symbols, one symbol after another; the first failure sticks. */
  function Convert(symbols: string, alphabet: string): Option<seq<nat>> {
    if |symbols| == 0 then Some([])
    else
      match Convert(symbols[..|symbols| - 1], alphabet)
      case None => None
      case Some(numbers) => ConvertSymbol(numbers, symbols[|symbols| - 1], alphabet)
  }

  /** The symbols that are in the alphabet, in input order. */
  function Kept(symbols: string, alphabet: string): (r: string)
    ensures |r| <= |symbols|
  {
    if |symbols| == 0 then []
    else
      var last := symbols[|symbols| - 1];
      Kept(symbols[..|symbols| - 1], alphabet) + (if last in alphabet then [last] else [])
  }

  /** c occurs in the alphabet at most once. */
  ghost predicate Unique(c: char, alphabet: string) {
    forall m, n :: 0 <= m < n < |alphabet| && alphabet[m] == c ==> alphabet[n] != c
  }

  /** A symbol the conversion lets through: a unique alphabet symbol, or whitespace outside the alphabet. */
  ghost predicate Accepted(c: char, alphabet: string) {
    if c in alphabet then Unique(c, alphabet) else IsWhiteSpace(c)
  }

  /** Every number is a valid position whose alphabet symbol is the kept symbol at the same place. */
  ghost predicate Encodes(numbers: seq<nat>, kept: string, alphabet: string) {
    |numbers| == |kept| &&
    forall k :: 0 <= k < |numbers| ==>
      numbers[k] < |alphabet| && alphabet[numbers[k]] == kept[k] &&
      forall m :: 0 <= m < |alphabet| && m != numbers[k] ==> alphabet[m] != kept[k]
  }

  /** The last symbol decides the conversion of a non-empty input that converts so far. */
  lemma SymbolStep(numbers: seq<nat>, c: char, alphabet: string)
    ensures ConvertSymbol(numbers, c, alphabet).Some? <==> Accepted(c, alphabet)
    ensures ConvertSymbol(numbers, c, alphabet).Some? ==>
      var j := IndexOf(alphabet, c, 0);
      ConvertSymbol(numbers, c, alphabet).value == numbers + (if c in alphabet then [j] else []) &&
      (c in alphabet ==>
         (0 <= j < |alphabet| && alphabet[j] == c && forall m :: 0 <= m < |alphabet| && m != j ==> alphabet[m] != c))
  {
    var j := IndexOf(alphabet, c, 0);
    if j >= 0 {
      assert c in alphabet;
      if j + 1 < |alphabet| && IndexOf(alphabet, c, j + 1) >= 0 {
        var n := IndexOf(alphabet, c, j + 1);
        assert alphabet[j] == c && alphabet[n] == c && j < n;
      } else {
        forall m, n | 0 <= m < n < |alphabet| && alphabet[m] == c
          ensures alphabet[n] != c
        {
          assert j <= m;
        }
      }
    } else {
      assert c !in alphabet by {
        forall k | 0 <= k < |alphabet|
          ensures alphabet[k] != c
        {
        }
      }
    }
  }

  /**
   * The conversion succeeds exactly when every symbol is accepted: a
   * non-whitespace symbol outside the alphabet, or a symbol the alphabet
   * holds twice, anywhere in the input makes it fail.
   */
  lemma {:induction false} ConvertSucceeds(symbols: string, alphabet: string)
    ensures Convert(symbols, alphabet).Some? <==> forall k :: 0 <= k < |symbols| ==> Accepted(symbols[k], alphabet)
  {
    if |symbols| > 0 {
      var front := symbols[..|symbols| - 1];
      ConvertSucceeds(front, alphabet);
      match Convert(front, alphabet)
      case None =>
      case Some(numbers) =>
        SymbolStep(numbers, symbols[|symbols| - 1], alphabet);
    }
  }

  /**
   * A successful conversion emits, in input order, one number per symbol
   * found in the alphabet: the position of that symbol, which is its only
   * position.
   */
  lemma {:induction false} ConvertEncodes(symbols: string, alphabet: string)
    ensures Convert(symbols, alphabet).Some? ==> Encodes(Convert(symbols, alphabet).value, Kept(symbols, alphabet), alphabet)
  {
    if |symbols| > 0 {
      var front := symbols[..|symbols| - 1];
      var c := symbols[|symbols| - 1];
      ConvertEncodes(front, alphabet);
      match Convert(front, alphabet)
      case None =>
      case Some(numbers) =>
        SymbolStep(numbers, c, alphabet);
    }
  }

  /** The numbers of a successful conversion name the kept symbols back through the alphabet. */
  lemma Decodes(symbols: string, alphabet: string)
    requires Convert(symbols, alphabet).Some?
    ensures var numbers := Convert(symbols, alphabet).value;
      (forall k :: 0 <= k < |numbers| ==> numbers[k] < |alphabet|) &&
      seq(|numbers|, k requires 0 <= k < |numbers| && numbers[k] < |alphabet| => alphabet[numbers[k]]) == Kept(symbols, alphabet)
  {
    ConvertEncodes(symbols, alphabet);
  }

  /** Once a prefix fails, the whole input fails. */
  lemma {:induction false} FailureSticks(symbols: string, alphabet: string, i: nat)
    requires i <= |symbols| && Convert(symbols[..i], alphabet).None?
    ensures Convert(symbols, alphabet).None?
    decreases |symbols| - i
  {
    if i < |symbols| {
      assert symbols[..i + 1][..i] == symbols[..i];
      FailureSticks(symbols, alphabet, i + 1);
    } else {
      assert symbols[..i] == symbols;
    }
  }

  /** ConvertSymbolsToNumbers: the loop over the symbols, appending to the list of numbers. */
  method ConvertSymbolsToNumbers(symbols: string, alphabet: string) returns (r: Option<seq<nat>>)
    ensures r == Convert(symbols, alphabet)
  {
    var numbers: seq<nat> := [];
    for i := 0 to |symbols|
      invariant Convert(symbols[..i], alphabet) == Some(numbers)
    {
      var ch := symbols[i];
      assert symbols[..i + 1][..i] == symbols[..i];
      var j := IndexOf(alphabet, ch, 0);
      if j < 0 {
        if IsWhiteSpace(ch) {
          continue;
        }
        FailureSticks(symbols, alphabet, i + 1);
        return None;
      }
      if j + 1 < |alphabet| && IndexOf(alphabet, ch, j + 1) >= 0 {
        FailureSticks(symbols, alphabet, i + 1);
        return None;
      }
      numbers := numbers + [j];
    }
    assert symbols[..|symbols|] == symbols;
    return Some(numbers);
  }
}
