/**
  The order Rust's `Ord` puts on `String`, which is how the program compares
  the signal column: lexicographically, character by character, a proper
  prefix coming first. Rust compares the UTF-8 bytes; for valid UTF-8 that is
  the same as comparing code points, which is what `char` comparison does here.
  The order is NOT numeric: "9" comes after "45" and "100" before "45".
*/
module SignalOrder {

  /** `a < b` for Rust strings. */
  predicate Less(a: string, b: string)
  {
    if |a| == 0 then |b| != 0
    else if |b| == 0 then false
    else if a[0] != b[0] then a[0] < b[0]
    else Less(a[1..], b[1..])
  }

  /** `a <= b` for Rust strings. */
  predicate Leq(a: string, b: string)
  {
    !Less(b, a)
  }

  lemma {:induction false} LessIrreflexive(a: string)
    ensures !Less(a, a)
  {
    if |a| != 0 {
      LessIrreflexive(a[1..]);
    }
  }

  lemma {:induction false} LessTransitive(a: string, b: string, c: string)
    requires Less(a, b) && Less(b, c)
    ensures Less(a, c)
  {
    if |a| != 0 && a[0] == b[0] && b[0] == c[0] {
      LessTransitive(a[1..], b[1..], c[1..]);
    }
  }

  /** Any two strings are comparable, and only equal strings are unordered. */
  lemma {:induction false} LessTrichotomous(a: string, b: string)
    ensures Less(a, b) || a == b || Less(b, a)
  {
    if |a| != 0 && |b| != 0 && a[0] == b[0] {
      LessTrichotomous(a[1..], b[1..]);
      if a[1..] == b[1..] {
        assert a == [a[0]] + a[1..] && b == [b[0]] + b[1..];
      }
    }
  }

  lemma LessAsymmetric(a: string, b: string)
    requires Less(a, b)
    ensures !Less(b, a)
  {
    if Less(b, a) {
      LessTransitive(a, b, a);
      LessIrreflexive(a);
    }
  }

  /** `Leq` is a total preorder (and in fact a total order) on strings. */
  lemma LeqTotalOrder(a: string, b: string, c: string)
    ensures Leq(a, a)
    ensures Leq(a, b) || Leq(b, a)
    ensures Leq(a, b) && Leq(b, c) ==> Leq(a, c)
    ensures Leq(a, b) && Leq(b, a) ==> a == b
  {
    LessIrreflexive(a);
    LessTrichotomous(a, b);
    LessTrichotomous(b, c);
    if Less(a, b) {
      LessAsymmetric(a, b);
    }
    if Leq(a, b) && Leq(b, c) && Less(c, a) {
      if a != b {
        LessTransitive(c, a, b);
      }
    }
  }

  /** Mixed transitivity: `a <= b < c` gives `a < c`. */
  lemma LeqLessTransitive(a: string, b: string, c: string)
    requires Leq(a, b) && Less(b, c)
    ensures Less(a, c)
  {
    LessTrichotomous(a, b);
    if a != b {
      LessTransitive(a, b, c);
    }
  }

  /** Signals are compared as text, not as numbers. */
  lemma NotNumeric()
    ensures Less("45", "9") && Less("100", "45") && Less("45", "45 ")
  {
    assert Less("5", "9");
  }
}
