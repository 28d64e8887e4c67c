/**
  `str::split(':')` as the record parser uses it: the pieces between
  successive colons, always at least one (the empty line splits into one
  empty field, a trailing colon leaves an empty last field). Nothing is
  unescaped: a backslash before a colon is an ordinary character.
*/
module Text {

  const SEP: char := ':'

  /** Number of separators in `s`. */
  function Count(s: string): nat
  {
    if |s| == 0 then 0
    else (if s[0] == SEP then 1 else 0) + Count(s[1..])
  }

  /** Splits `s` at every separator. */
  function Split(s: string): (fields: seq<string>)
    ensures |fields| == Count(s) + 1
    ensures forall i :: 0 <= i < |fields| ==> SEP !in fields[i]
  {
    if |s| == 0 then [""]
    else
      var rest := Split(s[1..]);
      if s[0] == SEP then [""] + rest
      else [[s[0]] + rest[0]] + rest[1..]
  }

  /** Puts the separator between consecutive fields: the inverse of `Split`. */
  function Join(fields: seq<string>): string
    requires |fields| >= 1
  {
    if |fields| == 1 then fields[0] else fields[0] + [SEP] + Join(fields[1..])
  }

  /** The first field is empty exactly when the text is empty or starts with the separator. */
  lemma {:induction false} SplitFirstEmpty(s: string)
    ensures Split(s)[0] == "" <==> s == "" || s[0] == SEP
  {
  }

  /** Splitting loses nothing. */
  lemma {:induction false} JoinSplit(s: string)
    ensures Join(Split(s)) == s
  {
    if |s| != 0 {
      var rest := Split(s[1..]);
      JoinSplit(s[1..]);
      assert s == [s[0]] + s[1..];
      if s[0] != SEP && |rest| > 1 {
        assert Join(rest) == rest[0] + [SEP] + Join(rest[1..]);
      }
    }
  }

  /** Text without a separator is a single field. */
  lemma {:induction false} SplitSingle(f: string)
    requires SEP !in f
    ensures Split(f) == [f]
  {
    if |f| != 0 {
      SplitSingle(f[1..]);
      assert f == [f[0]] + f[1..];
    }
  }

  /** Splitting at a separator splits the two sides independently. */
  lemma {:induction false} SplitAppend(a: string, b: string)
    ensures Split(a + [SEP] + b) == Split(a) + Split(b)
  {
    if |a| == 0 {
      assert a + [SEP] + b == [SEP] + b;
      assert ([SEP] + b)[1..] == b;
    } else {
      assert (a + [SEP] + b)[1..] == a[1..] + [SEP] + b;
      SplitAppend(a[1..], b);
    }
  }

  /** Fields free of the separator come back unchanged from a join and a split. */
  lemma {:induction false} SplitJoin(fields: seq<string>)
    requires |fields| >= 1
    requires forall i :: 0 <= i < |fields| ==> SEP !in fields[i]
    ensures Split(Join(fields)) == fields
  {
    SplitSingle(fields[0]);
    if |fields| > 1 {
      SplitJoin(fields[1..]);
      SplitAppend(fields[0], Join(fields[1..]));
    }
  }

  /** Joining two non-empty runs of fields puts one separator between them. */
  lemma {:induction false} JoinAppend(a: seq<string>, b: seq<string>)
    requires |a| >= 1 && |b| >= 1
    ensures Join(a + b) == Join(a) + [SEP] + Join(b)
  {
    if |a| > 1 {
      assert (a + b)[1..] == a[1..] + b;
      JoinAppend(a[1..], b);
    } else {
      assert (a + b)[1..] == b;
    }
  }
}
