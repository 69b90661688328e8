/**
 * The parsed property-list tree the search walks: each element has a tag
 * ("dict", "key", "string", "data", "array", ...), the text it holds, which
 * is absent for an element with no character data, and its child elements
 * in document order.
 */
module Plist {
  import opened Wrappers

  datatype Elem = Elem(tag: string, text: Option<string>, children: seq<Elem>)

  /** The text of an element, or "" when it has none. */
  function TextOrEmpty(e: Elem): string
  {
    match e.text
    case Some(t) => t
    case None => ""
  }

  /** A text that is present and non-empty: the only texts Python treats as true. */
  predicate HasText(e: Elem)
  {
    e.text.Some? && e.text.value != ""
  }

  /** True when `sub` occurs in `s` as a contiguous, case-sensitive substring. */
  predicate Contains(s: string, sub: string)
    decreases |s|
  {
    sub <= s || (|s| > 0 && Contains(s[1..], sub))
  }

  /** `sub` occurs in `s` at position `i`. */
  predicate OccursAt(s: string, sub: string, i: nat)
  {
    i + |sub| <= |s| && s[i..i + |sub|] == sub
  }

  /** Contains is Python's `in` on strings: some position of `s` starts a copy of `sub`. */
  lemma {:induction false} ContainsIff(s: string, sub: string)
    ensures Contains(s, sub) <==> exists i: nat :: OccursAt(s, sub, i)
    decreases |s|
  {
    if sub <= s {
      assert OccursAt(s, sub, 0);
    } else if |s| > 0 {
      ContainsIff(s[1..], sub);
      if Contains(s[1..], sub) {
        var i: nat :| OccursAt(s[1..], sub, i);
        assert s[i + 1..i + 1 + |sub|] == s[1..][i..i + |sub|];
        assert OccursAt(s, sub, i + 1);
      }
      if exists i: nat :: OccursAt(s, sub, i) {
        var i: nat :| OccursAt(s, sub, i);
        assert i != 0;
        assert s[1..][i - 1..i - 1 + |sub|] == s[i..i + |sub|];
        assert OccursAt(s[1..], sub, i - 1);
      }
    }
  }
}
