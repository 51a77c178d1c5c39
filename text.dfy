/** Strings for the messages: Python's str() of a natural number, and lines joined by '\n'
    together with the split that takes them apart again. */
module Text {

  /** The character of a decimal digit. */
  function Digit(d: nat): (c: char)
    requires d < 10
    ensures '0' <= c <= '9' && c as int - '0' as int == d
  {
    ('0' as int + d) as char
  }

  predicate AllDigits(s: string) {
    forall i :: 0 <= i < |s| ==> '0' <= s[i] <= '9'
  }

  /** `str(n)`: the decimal digits of n, most significant first, without a leading zero. */
  function Decimal(n: nat): (s: string)
    ensures |s| >= 1 && AllDigits(s)
    ensures |s| > 1 ==> s[0] != '0'
    decreases n
  {
    if n < 10 then [Digit(n)] else Decimal(n / 10) + [Digit(n % 10)]
  }

  /** The number a string of decimal digits denotes. */
  function Value(s: string): nat
    requires AllDigits(s)
  {
    if s == [] then 0 else Value(s[..|s| - 1]) * 10 + (s[|s| - 1] as int - '0' as int)
  }

  /** Reading back the digits of str(n) gives n. */
  lemma {:induction false} DecimalRoundTrip(n: nat)
    ensures Value(Decimal(n)) == n
    decreases n
  {
    if n >= 10 {
      DecimalRoundTrip(n / 10);
      var s := Decimal(n);
      assert s[..|s| - 1] == Decimal(n / 10);
    }
  }

  /** The fields separated by one '\n' each. */
  function Join(fields: seq<string>): string
    requires |fields| >= 1
  {
    if |fields| == 1 then fields[0] else Join(fields[..|fields| - 1]) + "\n" + fields[|fields| - 1]
  }

  /** The position of the last '\n' of s. */
  function LastNewline(s: string): (i: nat)
    requires '\n' in s
    ensures i < |s| && s[i] == '\n' && '\n' !in s[i + 1..]
  {
    if s[|s| - 1] == '\n' then |s| - 1 else LastNewline(s[..|s| - 1])
  }

  /** The fields of s between its '\n' characters, as the reader of a message sees its lines. */
  function Split(s: string): (r: seq<string>)
    ensures |r| >= 1
    decreases |s|
  {
    if '\n' !in s then [s]
    else
      var i := LastNewline(s);
      Split(s[..i]) + [s[i + 1..]]
  }

  lemma {:induction false} LastNewlineOfAppend(a: string, f: string)
    requires '\n' !in f
    ensures LastNewline(a + "\n" + f) == |a|
    decreases |f|
  {
    var s := a + "\n" + f;
    if f != [] {
      assert s[|s| - 1] == f[|f| - 1];
      assert s[..|s| - 1] == a + "\n" + f[..|f| - 1];
      LastNewlineOfAppend(a, f[..|f| - 1]);
    }
  }

  /** A '\n' followed by a field without one adds that field at the end. */
  lemma SplitAppend(a: string, f: string)
    requires '\n' !in f
    ensures Split(a + "\n" + f) == Split(a) + [f]
  {
    var s := a + "\n" + f;
    assert s[|a|] == '\n';
    LastNewlineOfAppend(a, f);
    assert s[..|a|] == a;
    assert s[|a| + 1..] == f;
  }

  /** Splitting undoes joining, when no field holds a '\n'. */
  lemma {:induction false} SplitJoin(fields: seq<string>)
    requires |fields| >= 1
    requires forall k :: 0 <= k < |fields| ==> '\n' !in fields[k]
    ensures Split(Join(fields)) == fields
    decreases |fields|
  {
    if |fields| > 1 {
      var front := fields[..|fields| - 1];
      SplitAppend(Join(front), fields[|fields| - 1]);
      SplitJoin(front);
    }
  }

  /** Joining one more field appends it after a '\n'. */
  lemma JoinSnoc(fields: seq<string>, f: string)
    requires |fields| >= 1
    ensures Join(fields + [f]) == Join(fields) + "\n" + f
  {
    assert (fields + [f])[..|fields|] == fields;
  }
}
