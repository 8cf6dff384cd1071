/**
 * The few JavaScript string built-ins the token generator relies on:
 * `toUpperCase` (restricted to ASCII letters), `Array.prototype.join`,
 * `String.prototype.includes`, and -- to read a joined text back as lines --
 * `split` on a single character.
 */
module JsStrings {

  predicate IsLower(c: char) { 'a' <= c <= 'z' }

  /** ASCII upper-casing of one character: a-z become A-Z, everything else is kept. */
  function UpperChar(c: char): (u: char)
    ensures !IsLower(u)
    ensures u == c || IsLower(c)
  {
    if IsLower(c) then (c as int - 32) as char else c
  }

  /** `s.toUpperCase()`, character by character. */
  function Upper(s: string): (r: string)
    ensures |r| == |s|
    ensures forall k :: 0 <= k < |s| ==> r[k] == UpperChar(s[k])
  {
    if s == [] then [] else [UpperChar(s[0])] + Upper(s[1..])
  }

  /** Two characters that are the same letter up to case, or simply the same. */
  predicate SameIgnoringCase(c: char, d: char) {
    || c == d
    || (IsLower(c) && d as int == c as int - 32)
    || (IsLower(d) && c as int == d as int - 32)
  }

  /** Case-insensitive equality of strings, stated character-wise. */
  predicate EqualsIgnoringCase(a: string, b: string) {
    |a| == |b| && forall k :: 0 <= k < |a| ==> SameIgnoringCase(a[k], b[k])
  }

  lemma UpperCharSame(c: char, d: char)
    ensures UpperChar(c) == UpperChar(d) <==> SameIgnoringCase(c, d)
  {
  }

  /** Comparing upper-cased strings is exactly case-insensitive comparison. */
  lemma UpperEqualIff(a: string, b: string)
    ensures Upper(a) == Upper(b) <==> EqualsIgnoringCase(a, b)
  {
    if Upper(a) == Upper(b) {
      forall k | 0 <= k < |a| ensures SameIgnoringCase(a[k], b[k]) {
        assert Upper(a)[k] == Upper(b)[k];
        UpperCharSame(a[k], b[k]);
      }
    }
    if EqualsIgnoringCase(a, b) {
      forall k | 0 <= k < |a| ensures Upper(a)[k] == Upper(b)[k] {
        UpperCharSame(a[k], b[k]);
      }
    }
  }

  lemma EqualsIgnoringCaseTransitive(a: string, b: string, c: string)
    requires EqualsIgnoringCase(a, b) && EqualsIgnoringCase(b, c)
    ensures EqualsIgnoringCase(a, c)
  {
    UpperEqualIff(a, b);
    UpperEqualIff(b, c);
    UpperEqualIff(a, c);
  }

  /** A string with no lower-case ASCII letter is its own upper-case form. */
  lemma UpperOfUpper(s: string)
    requires forall k :: 0 <= k < |s| ==> !IsLower(s[k])
    ensures Upper(s) == s
  {
  }

  lemma UpperIdempotent(s: string)
    ensures Upper(Upper(s)) == Upper(s)
  {
    UpperOfUpper(Upper(s));
  }

  /**
   * `xs.join(sep)`: the elements with `sep` between neighbours; "" for no
   * elements. The text starts with the first element and ends with the last.
   */
  function Join(xs: seq<string>, sep: string): (r: string)
    ensures |xs| > 0 ==> xs[0] <= r
  {
    if |xs| == 0 then ""
    else if |xs| == 1 then xs[0]
    else
      xs[0] + sep + Join(xs[1..], sep)
  }

  /** `s.includes(t)` */
  predicate Contains(s: string, t: string)
  {
    t <= s || (|s| > 0 && Contains(s[1..], t))
  }

  /** An occurrence of `t` at position `i` witnesses `s.includes(t)`. */
  lemma {:induction false} ContainsAt(s: string, t: string, i: nat)
    requires i + |t| <= |s| && s[i..i + |t|] == t
    ensures Contains(s, t)
  {
    if i > 0 {
      assert s[1..][i - 1..i - 1 + |t|] == s[i..i + |t|];
      ContainsAt(s[1..], t, i - 1);
    } else {
      assert t <= s;
    }
  }

  /** `t` occurs in any string that has it in the middle. */
  lemma ContainsMiddle(a: string, t: string, b: string)
    ensures Contains(a + t + b, t)
  {
    assert (a + t + b)[|a|..|a| + |t|] == t;
    ContainsAt(a + t + b, t, |a|);
  }

  /** Index of the first `c` in `s`, or `|s|` when there is none. */
  function IndexOf(s: string, c: char): (i: nat)
    ensures i <= |s|
    ensures i < |s| ==> s[i] == c
    ensures forall k :: 0 <= k < i ==> s[k] != c
  {
    if s == [] then 0
    else if s[0] == c then 0
    else 1 + IndexOf(s[1..], c)
  }

  /** `s.split(c)` for a one-character separator. */
  function Split(s: string, c: char): (r: seq<string>)
    ensures |r| > 0
    decreases |s|
  {
    var i := IndexOf(s, c);
    if i == |s| then [s] else [s[..i]] + Split(s[i + 1..], c)
  }

  /** The first `c` in `x + [c] + rest` is the one right after `x`, when `x` has none. */
  lemma IndexOfAfter(x: string, c: char, rest: string)
    requires c !in x
    ensures IndexOf(x + [c] + rest, c) == |x|
  {
    var s := x + [c] + rest;
    assert s[|x|] == c;
    assert forall k :: 0 <= k < |x| ==> s[k] == x[k];
  }

  /** Splitting at the first `c` separates the text before it from the rest. */
  lemma SplitFirst(x: string, c: char, rest: string)
    requires c !in x
    ensures Split(x + [c] + rest, c) == [x] + Split(rest, c)
  {
    var s := x + [c] + rest;
    IndexOfAfter(x, c, rest);
    assert s[..|x|] == x;
    assert s[|x| + 1..] == rest;
  }

  /** Splitting a join on a separator that occurs in no element gives the elements back. */
  lemma {:induction false} SplitJoin(xs: seq<string>, c: char)
    requires |xs| > 0
    requires forall j :: 0 <= j < |xs| ==> c !in xs[j]
    ensures Split(Join(xs, [c]), c) == xs
  {
    if |xs| == 1 {
      assert IndexOf(xs[0], c) == |xs[0]|;
    } else {
      var rest := Join(xs[1..], [c]);
      assert Join(xs, [c]) == xs[0] + [c] + rest;
      SplitFirst(xs[0], c, rest);
      SplitJoin(xs[1..], c);
    }
  }
}
