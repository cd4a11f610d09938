/** Python's substring test `sub in s`, used by the bot's url filter, and
    `s.split(d)`, used only to read rendered text back as lines and cells. */
module Text {

  /** `sub` occurs in `s` starting at index `i`. */
  ghost predicate OccursAt(sub: string, s: string, i: int) {
    0 <= i && i + |sub| <= |s| && s[i..i + |sub|] == sub
  }

  lemma OccursShift(sub: string, s: string)
    requires |s| > 0
    ensures forall i :: 0 <= i ==> (OccursAt(sub, s[1..], i) <==> OccursAt(sub, s, i + 1))
  {
  }

  /** Substring test, as Python's `sub in s` on strings. */
  function IsSubstring(sub: string, s: string): (r: bool)
    ensures r <==> exists i :: OccursAt(sub, s, i)
    decreases |s|
  {
    if |s| < |sub| then false
    else if s[..|sub|] == sub then assert OccursAt(sub, s, 0); true
    else
      OccursShift(sub, s);
      assert !OccursAt(sub, s, 0);
      assert forall i :: OccursAt(sub, s, i) ==> i == 0 || OccursAt(sub, s[1..], i - 1);
      IsSubstring(sub, s[1..])
  }

  /** A witness position proves containment. */
  lemma OccursAtIsSubstring(sub: string, s: string, i: int)
    requires OccursAt(sub, s, i)
    ensures IsSubstring(sub, s)
  {
  }

  /** Splits `s` at every `d`, as Python's `s.split(d)`; never returns an empty list. */
  function Split(s: string, d: char): (parts: seq<string>)
    ensures |parts| >= 1
  {
    if s == [] then [""]
    else
      var rest := Split(s[1..], d);
      if s[0] == d then [""] + rest
      else [[s[0]] + rest[0]] + rest[1..]
  }

  /** A string without `d` is a single part of its own. */
  lemma {:induction false} SplitWithout(x: string, d: char)
    requires d !in x
    ensures Split(x, d) == [x]
  {
    if x != [] {
      SplitWithout(x[1..], d);
      assert [x[0]] + x[1..] == x;
    }
  }

  /** A leading field without `d`, followed by `d`, is split off as the first part. */
  lemma {:induction false} SplitField(x: string, y: string, d: char)
    requires d !in x
    ensures Split(x + [d] + y, d) == [x] + Split(y, d)
  {
    if x == [] {
      assert x + [d] + y == [d] + y;
      assert ([d] + y)[1..] == y;
    } else {
      SplitField(x[1..], y, d);
      assert (x + [d] + y)[1..] == x[1..] + [d] + y;
      assert [x[0]] + x[1..] == x;
    }
  }
}
