// Quoting of SQL identifiers and strings.
module Quoting {
  // The formats %w and %Q double every quote character of the text.
  function Doubled(x: string, q: char): string {
    if x == [] then [] else (if x[0] == q then [q, q] else [x[0]]) + Doubled(x[1..], q)
  }

  function Quote(x: string, q: char): string {
    [q] + Doubled(x, q) + [q]
  }

  predicate IsQuote(c: char) {
    c == '\'' || c == '"' || c == '[' || c == '`'
  }

  // The scan of sqlite3Dequote from position i up to the closing quote.
  function Unquoted(z: string, q: char, i: nat): string
    decreases |z| - i
  {
    if i >= |z| then []
    else if z[i] != q then [z[i]] + Unquoted(z, q, i + 1)
    else if i + 1 < |z| && z[i + 1] == q then [q] + Unquoted(z, q, i + 2)
    else []
  }

  // sqlite3Dequote
  function Dequote(z: string): string {
    if z == [] || !IsQuote(z[0]) then z else Unquoted(z, if z[0] == '[' then ']' else z[0], 1)
  }

  // Reading a quoted text gives the text back, unless a further quote follows.
  lemma QuoteReadsBack(x: string, q: char, rest: string)
    requires (q == '\'' || q == '"') && (rest == [] || rest[0] != q)
    ensures Dequote(Quote(x, q) + rest) == x
  {
    var z := Quote(x, q) + rest;
    assert z[1..] == Doubled(x, q) + [q] + rest;
    ReadsBackFrom(x, q, rest, z, 1);
  }

  lemma {:induction false} ReadsBackFrom(x: string, q: char, rest: string, z: string, i: nat)
    requires (rest == [] || rest[0] != q) && i <= |z| && z[i..] == Doubled(x, q) + [q] + rest
    ensures Unquoted(z, q, i) == x
    decreases |x|
  {
    var tail := Doubled(x, q) + [q] + rest;
    assert z[i] == tail[0];
    if x == [] {
      assert i + 1 < |z| ==> z[i + 1] == tail[1];
    } else {
      var k := if x[0] == q then 2 else 1;
      assert z[i + 1] == tail[1];
      assert tail[k..] == Doubled(x[1..], q) + [q] + rest;
      assert z[i + k..] == tail[k..];
      ReadsBackFrom(x[1..], q, rest, z, i + k);
    }
  }

  lemma {:induction false} DoubledLength(x: string, q: char)
    ensures |x| <= |Doubled(x, q)| <= 2 * |x|
  {
    if x != [] {
      DoubledLength(x[1..], q);
    }
  }

  lemma {:induction false} DoubledNoNul(x: string, q: char)
    requires '\0' !in x && q != '\0'
    ensures '\0' !in Doubled(x, q)
  {
    if x != [] {
      DoubledNoNul(x[1..], q);
    }
  }

  lemma {:induction false} UnquotedNoNul(z: string, q: char, i: nat)
    requires '\0' !in z && q != '\0'
    ensures '\0' !in Unquoted(z, q, i)
    decreases |z| - i
  {
    if i < |z| {
      UnquotedNoNul(z, q, i + 1);
      if i + 1 < |z| {
        UnquotedNoNul(z, q, i + 2);
      }
    }
  }

  lemma DequoteNoNul(z: string)
    requires '\0' !in z
    ensures '\0' !in Dequote(z)
  {
    if z != [] && IsQuote(z[0]) {
      UnquotedNoNul(z, if z[0] == '[' then ']' else z[0], 1);
    }
  }
}
