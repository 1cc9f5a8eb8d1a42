/**
 * String helpers used by the loader and the analyzer: lower-casing,
 * `str.endswith`, the `in` substring test, `str.rfind('.')` and the
 * lexicographic order Python uses to compare strings and lists.
 */
module Text {

  /** Lower-case form of one character (ASCII letters only). */
  function LowerChar(c: char): char
  {
    if 'A' <= c <= 'Z' then (c as int + 32) as char else c
  }

  /** `s.lower()`, character by character. */
  function Lower(s: string): string
  {
    seq(|s|, i requires 0 <= i < |s| => LowerChar(s[i]))
  }

  lemma LowerCharIdempotent(c: char)
    ensures LowerChar(LowerChar(c)) == LowerChar(c)
  {
  }

  /** Lower-casing twice is lower-casing once. */
  lemma LowerIdempotent(s: string)
    ensures Lower(Lower(s)) == Lower(s)
  {
    forall i | 0 <= i < |s|
      ensures Lower(Lower(s))[i] == Lower(s)[i]
    {
      LowerCharIdempotent(s[i]);
    }
  }

  /** Lower-casing commutes with taking a suffix slice. */
  lemma LowerDrop(s: string, k: nat)
    requires k <= |s|
    ensures Lower(s[k..]) == Lower(s)[k..]
  {
  }

  /** `s.endswith(suffix)`. */
  predicate EndsWith(s: string, suffix: string)
  {
    |suffix| <= |s| && s[|s| - |suffix|..] == suffix
  }

  /** `s.endswith(tuple(suffixes))`: true iff some suffix in the tuple ends `s`. */
  predicate EndsWithAny(s: string, suffixes: seq<string>)
  {
    suffixes != [] && (EndsWith(s, suffixes[0]) || EndsWithAny(s, suffixes[1..]))
  }

  lemma {:induction false} EndsWithAnyExists(s: string, suffixes: seq<string>)
    ensures EndsWithAny(s, suffixes) <==> exists e :: e in suffixes && EndsWith(s, e)
  {
    if suffixes != [] {
      EndsWithAnyExists(s, suffixes[1..]);
      assert forall e :: e in suffixes <==> e == suffixes[0] || e in suffixes[1..];
    }
  }

  /** `needle` occurs in `hay` starting at index `i`. */
  predicate OccursAt(hay: string, needle: string, i: int)
  {
    0 <= i && i + |needle| <= |hay| && hay[i..i + |needle|] == needle
  }

  /** Python's `needle in hay` for strings: a substring search from the left. */
  function Contains(hay: string, needle: string): (r: bool)
    ensures r <==> exists i :: OccursAt(hay, needle, i)
    decreases |hay|
  {
    if |needle| <= |hay| && hay[..|needle|] == needle then
      assert OccursAt(hay, needle, 0);
      true
    else if hay == [] then
      false
    else
      var rest := Contains(hay[1..], needle);
      assert forall i :: OccursAt(hay[1..], needle, i) <==> OccursAt(hay, needle, i + 1) by {
        forall i ensures OccursAt(hay[1..], needle, i) <==> OccursAt(hay, needle, i + 1) {
          if 0 <= i && i + |needle| <= |hay| - 1 {
            assert hay[1..][i..i + |needle|] == hay[i + 1..i + 1 + |needle|];
          }
        }
      }
      assert !OccursAt(hay, needle, 0);
      assert (exists i :: OccursAt(hay, needle, i)) ==> exists i :: OccursAt(hay[1..], needle, i) by {
        if exists i :: OccursAt(hay, needle, i) {
          var i :| OccursAt(hay, needle, i);
          assert OccursAt(hay[1..], needle, i - 1);
        }
      }
      rest
  }

  /** `s.rfind(c)`: the last index holding `c`, or -1 when there is none. */
  function RFind(s: string, c: char): (r: int)
    ensures -1 <= r < |s|
    ensures r >= 0 ==> s[r] == c && forall k :: r < k < |s| ==> s[k] != c
    ensures r == -1 ==> forall k :: 0 <= k < |s| ==> s[k] != c
  {
    if s == [] then -1
    else if s[|s| - 1] == c then |s| - 1
    else RFind(s[..|s| - 1], c)
  }

  /** The last occurrence is determined by the positions that hold `c`. */
  lemma RFindUnique(s: string, t: string, c: char)
    requires |s| == |t|
    requires forall k :: 0 <= k < |s| ==> (s[k] == c <==> t[k] == c)
    ensures RFind(s, c) == RFind(t, c)
  {
  }

  /**
   * Lexicographic order on sequences, as Python compares strings
   * and lists: the first differing element decides, and a proper
   * prefix comes first.
   */
  predicate LexLe<T(==)>(a: seq<T>, b: seq<T>, lt: (T, T) -> bool)
    decreases |a|
  {
    if a == [] then true
    else if b == [] then false
    else if a[0] == b[0] then LexLe(a[1..], b[1..], lt)
    else lt(a[0], b[0])
  }

  /** `lt` is a strict total order. */
  ghost predicate StrictTotal<T(!new)>(lt: (T, T) -> bool)
  {
    && (forall x :: !lt(x, x))
    && (forall x, y, z :: lt(x, y) && lt(y, z) ==> lt(x, z))
    && (forall x, y :: x != y ==> lt(x, y) || lt(y, x))
  }

  lemma {:induction false} LexTotal<T(!new)>(a: seq<T>, b: seq<T>, lt: (T, T) -> bool)
    requires StrictTotal(lt)
    ensures LexLe(a, b, lt) || LexLe(b, a, lt)
    decreases |a|
  {
    if a != [] && b != [] && a[0] == b[0] {
      LexTotal(a[1..], b[1..], lt);
    }
  }

  lemma {:induction false} LexTransitive<T(!new)>(a: seq<T>, b: seq<T>, c: seq<T>, lt: (T, T) -> bool)
    requires StrictTotal(lt)
    requires LexLe(a, b, lt) && LexLe(b, c, lt)
    ensures LexLe(a, c, lt)
    decreases |a|
  {
    if a != [] && a[0] == b[0] && b[0] == c[0] {
      LexTransitive(a[1..], b[1..], c[1..], lt);
    }
  }

  lemma {:induction false} LexAntisymmetric<T(!new)>(a: seq<T>, b: seq<T>, lt: (T, T) -> bool)
    requires StrictTotal(lt)
    requires LexLe(a, b, lt) && LexLe(b, a, lt)
    ensures a == b
    decreases |a|
  {
    if a != [] {
      if a[0] == b[0] {
        LexAntisymmetric(a[1..], b[1..], lt);
        assert a == [a[0]] + a[1..] && b == [b[0]] + b[1..];
      }
    }
  }

  predicate CharLt(x: char, y: char)
  {
    x < y
  }

  /** Python's `a < b` on strings: code-point lexicographic order. */
  predicate StrLt(a: string, b: string)
  {
    a != b && LexLe(a, b, CharLt)
  }

  lemma StrLtStrictTotal()
    ensures StrictTotal(StrLt)
  {
    assert StrictTotal(CharLt);
    forall x: string, y: string, z: string | StrLt(x, y) && StrLt(y, z)
      ensures StrLt(x, z)
    {
      LexTransitive(x, y, z, CharLt);
      if x == z {
        LexAntisymmetric(x, y, CharLt);
      }
    }
    forall x: string, y: string | x != y
      ensures StrLt(x, y) || StrLt(y, x)
    {
      LexTotal(x, y, CharLt);
    }
  }
}
