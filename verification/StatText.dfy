// The text of a list of counts: written by stat_get for sqlite_stat4, read
// back by decodeIntArray.
module StatText {
  // Counts are unsigned 64-bit integers.
  const LIMIT: nat := 0x1_0000_0000_0000_0000

  predicate IsDigit(c: char) {
    '0' <= c <= '9'
  }

  function DigitChar(d: nat): (c: char)
    requires d < 10
    ensures IsDigit(c) && c as int - '0' as int == d
  {
    ('0' as int + d) as char
  }

  // %llu
  function Decimal(n: nat): (s: string)
    ensures s != ""
  {
    if n < 10 then [DigitChar(n)] else Decimal(n / 10) + [DigitChar(n % 10)]
  }

  // The counts, separated by single spaces.
  function Joined(counts: seq<nat>): string {
    if counts == [] then ""
    else if |counts| == 1 then Decimal(counts[0])
    else Decimal(counts[0]) + " " + Joined(counts[1..])
  }

  // Reads digits onto v, wrapping around as the 64-bit arithmetic does.
  function ReadNumber(z: string, v: nat): (r: (nat, string))
    ensures |r.1| <= |z|
  {
    if z != "" && IsDigit(z[0]) then ReadNumber(z[1..], (v * 10 + (z[0] as int - '0' as int)) % LIMIT) else (v, z)
  }

  function SkipSpace(z: string): string {
    if z != "" && z[0] == ' ' then z[1..] else z
  }

  // What decodeIntArray stores for a text and n slots.
  function Decoded(z: string, n: nat): (counts: seq<nat>)
    ensures |counts| <= n
    decreases n
  {
    if z == "" || n == 0 then []
    else
      var r := ReadNumber(z, 0);
      [r.0] + Decoded(SkipSpace(r.1), n - 1)
  }

  // The value that reading digits onto v gives.
  function Onto(digits: string, v: nat): nat
    requires forall i :: 0 <= i < |digits| ==> IsDigit(digits[i])
  {
    if digits == "" then v else Onto(digits[1..], (v * 10 + (digits[0] as int - '0' as int)) % LIMIT)
  }

  lemma {:induction false} ReadDigits(digits: string, rest: string, v: nat)
    requires forall i :: 0 <= i < |digits| ==> IsDigit(digits[i])
    requires rest == "" || !IsDigit(rest[0])
    ensures ReadNumber(digits + rest, v) == (Onto(digits, v), rest)
    decreases |digits|
  {
    if digits == "" {
      assert digits + rest == rest;
    } else {
      assert (digits + rest)[1..] == digits[1..] + rest;
      ReadDigits(digits[1..], rest, (v * 10 + (digits[0] as int - '0' as int)) % LIMIT);
    }
  }

  lemma {:induction false} OntoAppend(digits: string, c: char, v: nat)
    requires (forall i :: 0 <= i < |digits| ==> IsDigit(digits[i])) && IsDigit(c)
    ensures Onto(digits + [c], v) == (Onto(digits, v) * 10 + (c as int - '0' as int)) % LIMIT
    decreases |digits|
  {
    if digits == "" {
      assert digits + [c] == [c];
    } else {
      assert (digits + [c])[1..] == digits[1..] + [c];
      OntoAppend(digits[1..], c, (v * 10 + (digits[0] as int - '0' as int)) % LIMIT);
    }
  }

  lemma {:induction false} DecimalReads(n: nat)
    requires n < LIMIT
    ensures (forall i :: 0 <= i < |Decimal(n)| ==> IsDigit(Decimal(n)[i])) && Onto(Decimal(n), 0) == n
  {
    if n < 10 {
      assert Decimal(n)[1..] == "";
    } else {
      DecimalReads(n / 10);
      var digits, c := Decimal(n / 10), DigitChar(n % 10);
      assert Decimal(n) == digits + [c];
      OntoAppend(digits, c, 0);
      TenTimes(n);
    }
  }

  // The digits of a number start with 0 for 0 alone.
  lemma {:induction false} NoLeadingZero(n: nat)
    ensures Decimal(n)[0] == '0' <==> n == 0
  {
    if n >= 10 {
      NoLeadingZero(n / 10);
    }
  }

  lemma TenTimes(n: nat)
    requires n < LIMIT
    ensures (n / 10 * 10 + n % 10) % LIMIT == n
  {
  }

  // decodeIntArray recovers every list of counts that stat_get prints.
  lemma {:induction false} StatTextRoundTrip(counts: seq<nat>)
    requires forall i :: 0 <= i < |counts| ==> counts[i] < LIMIT
    ensures Decoded(Joined(counts), |counts|) == counts
    decreases |counts|
  {
    if counts != [] {
      var rest := if |counts| == 1 then "" else " " + Joined(counts[1..]);
      assert Joined(counts) == Decimal(counts[0]) + rest;
      DecimalReads(counts[0]);
      ReadDigits(Decimal(counts[0]), rest, 0);
      if |counts| > 1 {
        assert SkipSpace(rest) == Joined(counts[1..]);
      }
      StatTextRoundTrip(counts[1..]);
      assert counts == [counts[0]] + counts[1..];
    }
  }

  // ---- The loops ----

  lemma {:induction false} JoinedAppend(counts: seq<nat>, n: nat)
    ensures Joined(counts + [n]) == (if counts == [] then "" else Joined(counts) + " ") + Decimal(n)
    decreases |counts|
  {
    if counts == [] {
      assert counts + [n] == [n];
    } else {
      assert (counts + [n])[1..] == counts[1..] + [n];
      JoinedAppend(counts[1..], n);
    }
  }

  // The loop of stat_get: every count is followed by a space, and the last
  // character is dropped.
  method Print(counts: seq<nat>) returns (text: string)
    ensures text == Joined(counts)
  {
    text := "";
    for i := 0 to |counts|
      invariant text == if i == 0 then "" else Joined(counts[..i]) + " "
    {
      JoinedAppend(counts[..i], counts[i]);
      assert counts[..i + 1] == counts[..i] + [counts[i]];
      text := text + Decimal(counts[i]) + " ";
    }
    assert counts[..|counts|] == counts;
    if text != "" {
      text := text[..|text| - 1];
    }
  }

  // The inner loop of decodeIntArray.
  method TakeNumber(text: string) returns (v: nat, z: string)
    ensures (v, z) == ReadNumber(text, 0)
  {
    v, z := 0, text;
    while z != "" && IsDigit(z[0])
      invariant ReadNumber(z, v) == ReadNumber(text, 0)
      decreases |z|
    {
      v, z := (v * 10 + (z[0] as int - '0' as int)) % LIMIT, z[1..];
    }
  }

  // One count, and the space after it.
  method TakeField(text: string, ghost n: nat) returns (v: nat, z: string)
    requires text != "" && n > 0
    ensures Decoded(text, n) == [v] + Decoded(z, n - 1)
  {
    v, z := TakeNumber(text);
    if z != "" && z[0] == ' ' {
      z := z[1..];
    }
  }

  // decodeIntArray; slots beyond those written keep their values.
  method DecodeIntArray(text: string, aOut: array<nat>) returns (written: nat)
    modifies aOut
    ensures written == |Decoded(text, aOut.Length)|
    ensures aOut[..] == Decoded(text, aOut.Length) + old(aOut[..])[written..]
  {
    var z := text;
    written := 0;
    ghost var slots, done, left := aOut[..], [], aOut.Length;
    while z != "" && written < aOut.Length
      invariant written <= aOut.Length && aOut[..] == done + slots[written..] && |done| == written
      invariant left == aOut.Length - written && done + Decoded(z, left) == Decoded(text, aOut.Length)
    {
      ghost var all := Decoded(z, left);
      var v;
      v, z := TakeField(z, left);
      left := left - 1;
      Regroup(done, v, all, Decoded(z, left));
      StoreAt(aOut, written, v, done, slots);
      written := written + 1;
      done := done + [v];
    }
    assert done == Decoded(text, aOut.Length) by {
      assert done + [] == done;
    }
  }

  method StoreAt(aOut: array<nat>, k: nat, v: nat, ghost done: seq<nat>, ghost slots: seq<nat>)
    requires |done| == k < aOut.Length == |slots| && aOut[..] == done + slots[k..]
    modifies aOut
    ensures aOut[..] == done + [v] + slots[k + 1..]
  {
    StoreNext(done, v, slots, k);
    aOut[k] := v;
  }

  lemma Regroup(done: seq<nat>, v: nat, all: seq<nat>, rest: seq<nat>)
    requires all == [v] + rest
    ensures done + all == done + [v] + rest
  {
  }

  lemma StoreNext(done: seq<nat>, v: nat, slots: seq<nat>, k: nat)
    requires |done| == k < |slots|
    ensures (done + slots[k..])[k := v] == done + [v] + slots[k + 1..]
  {
  }
}
