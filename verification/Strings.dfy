/** The order in which both the program and the database sort strings. */
module Strings {
  /** The order of strings: by their first difference, a proper prefix first. */
  predicate Less(a: string, b: string) {
    b != [] && (a == [] || a[0] < b[0] || (a[0] == b[0] && Less(a[1..], b[1..])))
  }

  /** The first difference decides, the smaller character first. */
  lemma {:induction false} FirstDifferenceDecides(p: string, c: char, d: char, x: string, y: string)
    requires c < d
    ensures Less(p + [c] + x, p + [d] + y)
  {
    var a, b := p + [c] + x, p + [d] + y;
    if p != [] {
      FirstDifferenceDecides(p[1..], c, d, x, y);
      assert a[1..] == p[1..] + [c] + x && b[1..] == p[1..] + [d] + y;
    }
  }

  lemma {:induction false} PrefixComesFirst(p: string, x: string)
    requires x != []
    ensures Less(p, p + x)
  {
    if p != [] {
      PrefixComesFirst(p[1..], x);
      assert (p + x)[1..] == p[1..] + x;
    }
  }

  lemma {:induction false} LessIsTotal(a: string, b: string)
    ensures Less(a, b) || Less(b, a) || a == b
  {
    if a != [] && b != [] && a[0] == b[0] {
      LessIsTotal(a[1..], b[1..]);
      assert a == [a[0]] + a[1..] && b == [b[0]] + b[1..];
    }
  }

  lemma {:induction false} LessIsStrict(a: string, b: string)
    ensures Less(a, b) ==> !Less(b, a) && a != b
  {
    if a != [] && b != [] { LessIsStrict(a[1..], b[1..]); }
  }

  lemma {:induction false} LessIsTransitive(a: string, b: string, c: string)
    requires Less(a, b) && Less(b, c)
    ensures Less(a, c)
  {
    if a != [] && a[0] == b[0] == c[0] { LessIsTransitive(a[1..], b[1..], c[1..]); }
  }
}
