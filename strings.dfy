/**
 * The JavaScript string operations book.js relies on, with their JavaScript
 * meaning: `endsWith`, `split` on a one-character separator, `replace` with a
 * string pattern (only the first occurrence is replaced) and the numeric
 * coercion that `-` applies to a string operand.
 */
module Strings {
  import opened Prelude

  /** `s.endsWith(suffix)`. */
  predicate EndsWith(s: string, suffix: string) {
    |suffix| <= |s| && s[|s| - |suffix|..] == suffix
  }

  lemma EndsWithAppend(prefix: string, suffix: string)
    ensures EndsWith(prefix + suffix, suffix)
  {
    assert (prefix + suffix)[|prefix|..] == suffix;
  }

  /** The pieces of `parts` glued back together with `sep` between neighbours. */
  function Join(parts: seq<string>, sep: char): string
    requires |parts| >= 1
  {
    if |parts| == 1 then parts[0] else parts[0] + [sep] + Join(parts[1..], sep)
  }

  /**
   * `s.split(sep)` for a one-character separator: the maximal runs between
   * separators, so there is always one piece more than there are separators
   * (an empty string splits into one empty piece).
   */
  function Split(s: string, sep: char): (parts: seq<string>)
    ensures |parts| >= 1
    ensures forall k :: 0 <= k < |parts| ==> sep !in parts[k]
  {
    if |s| == 0 then [""]
    else
      var rest := Split(s[1..], sep);
      if s[0] == sep then [""] + rest
      else [[s[0]] + rest[0]] + rest[1..]
  }

  /** Splitting and joining again gives back the original string. */
  lemma {:induction false} JoinSplit(s: string, sep: char)
    ensures Join(Split(s, sep), sep) == s
  {
    if |s| > 0 {
      var rest := Split(s[1..], sep);
      JoinSplit(s[1..], sep);
      if s[0] == sep {
        assert ([""] + rest)[1..] == rest;
      } else if |rest| > 1 {
        assert ([[s[0]] + rest[0]] + rest[1..])[1..] == rest[1..];
        assert Join(rest, sep) == rest[0] + [sep] + Join(rest[1..], sep);
        assert s == [s[0]] + s[1..];
      } else {
        assert s == [s[0]] + s[1..];
      }
    }
  }

  /** A string without the separator is a single piece. */
  lemma {:induction false} SplitWithoutSeparator(s: string, sep: char)
    requires sep !in s
    ensures Split(s, sep) == [s]
  {
    if |s| > 0 {
      assert sep !in s[1..] by {
        forall k | 0 <= k < |s[1..]| ensures s[1..][k] != sep {
          assert s[1..][k] == s[k + 1];
        }
      }
      SplitWithoutSeparator(s[1..], sep);
      assert [s[0]] + s[1..] == s;
    }
  }

  /** A leading piece free of the separator is split off as the first piece. */
  lemma {:induction false} SplitFirstPiece(first: string, sep: char, rest: string)
    requires sep !in first
    ensures Split(first + [sep] + rest, sep) == [first] + Split(rest, sep)
  {
    if |first| == 0 {
      assert first + [sep] + rest == [sep] + rest;
      assert ([sep] + rest)[1..] == rest;
    } else {
      var s := first + [sep] + rest;
      assert s[1..] == first[1..] + [sep] + rest;
      assert sep !in first[1..] by {
        forall k | 0 <= k < |first[1..]| ensures first[1..][k] != sep {
          assert first[1..][k] == first[k + 1];
        }
      }
      SplitFirstPiece(first[1..], sep, rest);
      assert [first[0]] + first[1..] == first;
    }
  }

  /** `pat` occurs in `s` starting at index `k`. */
  predicate OccursAt(s: string, pat: string, k: nat) {
    k + |pat| <= |s| && s[k..k + |pat|] == pat
  }

  /** The first index at or after `from` where `pat` occurs in `s`. */
  function IndexOfFrom(s: string, pat: string, from: nat): (r: Option<nat>)
    ensures r.Some? ==> from <= r.value && OccursAt(s, pat, r.value)
    ensures r.Some? ==> forall k :: from <= k < r.value ==> !OccursAt(s, pat, k)
    ensures r.None? ==> forall k :: from <= k ==> !OccursAt(s, pat, k)
    decreases |s| - from
  {
    if from + |pat| > |s| then None
    else if OccursAt(s, pat, from) then Some(from)
    else IndexOfFrom(s, pat, from + 1)
  }

  /** `s.indexOf(pat)`, with `None` for JavaScript's `-1`. */
  function IndexOf(s: string, pat: string): Option<nat> {
    IndexOfFrom(s, pat, 0)
  }

  /**
   * `s.replace(pat, '')` for a string pattern: removes the FIRST occurrence of
   * `pat`, wherever it is, and leaves `s` alone when there is none.
   */
  function RemoveFirst(s: string, pat: string): (r: string)
    ensures IndexOf(s, pat).None? ==> r == s
    ensures IndexOf(s, pat).Some? ==> |r| == |s| - |pat|
    ensures forall i: nat :: OccursAt(s, pat, i) && (forall k: nat :: k < i ==> !OccursAt(s, pat, k)) ==>
      r == s[..i] + s[i + |pat|..]
  {
    match IndexOf(s, pat)
    case None => s
    case Some(i) => s[..i] + s[i + |pat|..]
  }

  /** A string that starts with `prefix` loses exactly that prefix. */
  lemma RemoveLeading(prefix: string, rest: string)
    ensures RemoveFirst(prefix + rest, prefix) == rest
  {
    var s := prefix + rest;
    assert OccursAt(s, prefix, 0) by { assert s[..|prefix|] == prefix; }
    assert IndexOf(s, prefix) == Some(0);
    assert s[|prefix|..] == rest;
  }

  /** A JavaScript number, as far as book.js needs one. */
  datatype Number = Finite(value: real) | NaN

  predicate IsDigit(c: char) { '0' <= c <= '9' }

  predicate IsDigits(s: string) {
    forall k :: 0 <= k < |s| ==> IsDigit(s[k])
  }

  /** The value of a decimal numeral. */
  function DigitsValue(s: string): (n: nat)
    requires IsDigits(s)
    ensures |s| > 0 && s[0] != '0' ==> n > 0
  {
    if |s| == 0 then 0
    else
      var init := DigitsValue(s[..|s| - 1]);
      assert |s| > 1 && s[0] != '0' ==> s[..|s| - 1][0] == s[0];
      init * 10 + (s[|s| - 1] as int - '0' as int)
  }

  /**
   * The numeric coercion `Number(s)`, which JavaScript applies to a string
   * operand of `-`: the empty string is 0 and a decimal numeral its value.
   * Every other string is taken to be `NaN` here.
   */
  function ToNumber(s: string): (r: Number)
    ensures IsDigits(s) ==> r.Finite? && r.value >= 0.0
    ensures s == "" ==> r == Finite(0.0)
  {
    if IsDigits(s) then Finite(DigitsValue(s) as real) else NaN
  }
}
