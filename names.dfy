/** Item names as merge keys: `name.toLowerCase()` comparison, with lower-casing taken
    over ASCII letters only. */
module Names {
  import opened Common

  function LowerChar(c: char): (r: char)
    ensures !('A' <= r <= 'Z')
    ensures 'a' <= c <= 'z' || !('A' <= c <= 'Z') ==> r == c
    ensures 'A' <= c <= 'Z' ==> r as int == c as int + 32
  {
    if 'A' <= c <= 'Z' then (c as int + 32) as char else c
  }

  /** `s.toLowerCase()` restricted to ASCII. */
  function Lower(s: string): (r: string)
    ensures |r| == |s|
    ensures forall i :: 0 <= i < |s| ==> r[i] == LowerChar(s[i])
  {
    if s == [] then [] else [LowerChar(s[0])] + Lower(s[1..])
  }

  /** Two names denote the same item when they agree after lower-casing. */
  predicate SameName(a: string, b: string) {
    Lower(a) == Lower(b)
  }

  /** Folding twice is folding once: a folded key is its own key. */
  lemma LowerIdempotent(s: string)
    ensures Lower(Lower(s)) == Lower(s)
  {
  }

  /** A name matches its own folded form. */
  lemma SameAsFolded(s: string)
    ensures SameName(s, Lower(s))
  {
    LowerIdempotent(s);
  }

  /** The index of the first name matching `name` case-insensitively, or -1
      (the `find` over `item.name.toLowerCase() === name.toLowerCase()`). */
  function FirstMatch(names: seq<string>, name: string): (r: int)
    ensures -1 <= r < |names|
    ensures r >= 0 ==> SameName(names[r], name)
    ensures forall j :: 0 <= j < |names| && (r < 0 || j < r) ==> !SameName(names[j], name)
  {
    FindIndex(names, (n: string) => SameName(n, name))
  }

  /** The name-matching cases of the unit tests, plus a change of case: "Item A" finds
      "Item A" and "item a", "Item B" finds nothing. */
  lemma NameMatchExamples()
    ensures FirstMatch(["Item A"], "Item A") == 0
    ensures FirstMatch(["Item A"], "item a") == 0
    ensures FirstMatch(["Item A"], "Item B") == -1
  {
    assert SameName("Item A", "item a") by {
      var a, b := Lower("Item A"), Lower("item a");
      assert forall i :: 0 <= i < 6 ==> a[i] == LowerChar("Item A"[i]) == LowerChar("item a"[i]) == b[i];
    }
    assert !SameName("Item A", "Item B") by {
      assert Lower("Item A")[5] == LowerChar('A') == 'a';
      assert Lower("Item B")[5] == LowerChar('B') == 'b';
    }
    var r := FirstMatch(["Item A"], "Item A");
    assert r == 0 by { assert SameName(["Item A"][0], "Item A"); }
  }
}
