// What the edited statement means: each new token reads back as intended.
module RenameReading {
  import opened Quoting
  import opened Replacing
  import opened Renaming

  lemma {:induction false} RunOnFrom(x: string, q: char, z: string, i: nat)
    requires i + |Doubled(x, q)| + 1 < |z| && z[i..i + |Doubled(x, q)|] == Doubled(x, q)
    requires z[i + |Doubled(x, q)|] == q == z[i + |Doubled(x, q)| + 1]
    ensures |Unquoted(z, q, i)| > |x|
    decreases |x|
  {
    var d := Doubled(x, q);
    if x != [] {
      assert z[i..i + |d|][0] == z[i];
      var k := if x[0] == q then 2 else 1;
      assert d[k..] == Doubled(x[1..], q);
      assert z[i..i + |d|][k..] == z[i + k..i + |d|];
      assert k == 2 ==> z[i..i + |d|][1] == z[i + 1];
      RunOnFrom(x[1..], q, z, i + k);
    }
  }

  // A quoted text followed by one more quote reads as a longer text.
  lemma QuoteRunsOn(x: string, q: char, rest: string)
    requires (q == '\'' || q == '"') && rest != [] && rest[0] == q
    ensures Dequote(Quote(x, q) + rest) != x
  {
    var z := Quote(x, q) + rest;
    var n := |Doubled(x, q)|;
    assert z[1..1 + n] == Doubled(x, q);
    assert z[1 + n] == q && z[2 + n] == rest[0];
    RunOnFrom(x, q, z, 1);
  }

  lemma ReadsBackIff(z: string, x: string, q: char, rest: string, runsOn: bool)
    requires (q == '\'' || q == '"') && z == Quote(x, q) + rest && (runsOn <==> rest != [] && rest[0] == q)
    ensures Dequote(z) == x <==> !runsOn
  {
    if rest != [] && rest[0] == q {
      QuoteRunsOn(x, q, rest);
    } else {
      QuoteReadsBack(x, q, rest);
    }
  }

  // A listed token follows at once and gets a quote in front, and no space
  // comes between because the statement has no such quote there.
  predicate RunsOn(zSql: string, list: seq<RenameToken>, edit: Edit, t: RenameToken)
    requires Inside(zSql, list)
  {
    exists j :: 0 <= j < |list| && list[j].z == t.z + t.n && zSql[list[j].z] != Mark(edit) &&
      Requoted(zSql, edit, list[j])
  }

  // The new name is a bare identifier unless it is quoted everywhere.
  predicate Spelled(edit: Edit) {
    edit.NewName? && !edit.bQuote ==> edit.zNew != [] && IsIdChar(edit.zNew[0])
  }

  lemma StartsQuoted(zSql: string, list: seq<RenameToken>, edit: Edit, k: nat, tail: string)
    requires Inside(zSql, list) && Disjoint(list) && k < |list| && Requoted(zSql, edit, list[k])
    requires tail == Replaced(zSql, list, New(zSql, edit), list[k].z + list[k].n)
    ensures Replaced(zSql, list, New(zSql, edit), list[k].z)
      == Quote(Meant(zSql, edit, list[k]), Mark(edit)) + (Space(zSql, edit, list[k]) + tail)
  {
    var t := list[k];
    ReplacedFrom(zSql, list, New(zSql, edit), k, Replacement(zSql, edit, t), tail);
    Regroup(Quote(Meant(zSql, edit, t), Mark(edit)), Space(zSql, edit, t), tail);
  }

  lemma ReplacedFrom(text: string, list: seq<RenameToken>, rep: RenameToken -> string, k: nat, x: string, tail: string)
    requires Inside(text, list) && Disjoint(list) && k < |list| && x == rep(list[k])
    requires tail == Replaced(text, list, rep, list[k].z + list[k].n)
    ensures Replaced(text, list, rep, list[k].z) == x + tail
  {
    OneAt(text, list, k);
  }

  lemma NewStart(zSql: string, edit: Edit, t: RenameToken)
    requires Spelled(edit)
    ensures Replacement(zSql, edit, t) != []
    ensures Replacement(zSql, edit, t)[0] == Mark(edit) <==> Requoted(zSql, edit, t)
  {
  }

  // What follows the new token and its space, if any.
  lemma NextCharacter(zSql: string, list: seq<RenameToken>, edit: Edit, t: RenameToken, tail: string)
    requires Inside(zSql, list) && Disjoint(list) && t.z + t.n <= |zSql| && Spelled(edit)
    requires tail == Replaced(zSql, list, New(zSql, edit), t.z + t.n)
    ensures var rest := Space(zSql, edit, t) + tail;
      rest != [] && rest[0] == Mark(edit) <==> RunsOn(zSql, list, edit, t)
  {
    var i := t.z + t.n;
    if i < |zSql| {
      var j := TokenAt(list, i);
      if j < |list| {
        NewStart(zSql, edit, list[j]);
        OneAt(zSql, list, j);
      }
    }
  }

  // The edited statement from a requoted token on.
  lemma FromToken(zSql: string, list: seq<RenameToken>, edit: Edit, k: nat) returns (rest: string)
    requires Inside(zSql, list) && Disjoint(list) && Spelled(edit) && k < |list| && Requoted(zSql, edit, list[k])
    ensures Replaced(zSql, list, New(zSql, edit), list[k].z) == Quote(Meant(zSql, edit, list[k]), Mark(edit)) + rest
    ensures rest != [] && rest[0] == Mark(edit) <==> RunsOn(zSql, list, edit, list[k])
  {
    var tail := Replaced(zSql, list, New(zSql, edit), list[k].z + list[k].n);
    rest := Space(zSql, edit, list[k]) + tail;
    assert Replaced(zSql, list, New(zSql, edit), list[k].z) == Quote(Meant(zSql, edit, list[k]), Mark(edit)) + rest by {
      StartsQuoted(zSql, list, edit, k, tail);
    }
    NextCharacter(zSql, list, edit, list[k], tail);
  }

  // The edited statement, read from the new token on, begins with the intended
  // name or string; exactly a token that runs on is the exception.
  lemma ReadsAsMeant(zSql: string, list: seq<RenameToken>, edit: Edit, k: nat)
    requires Inside(zSql, list) && Disjoint(list) && Spelled(edit) && k < |list| && Requoted(zSql, edit, list[k])
    ensures Dequote(Replaced(zSql, list, New(zSql, edit), list[k].z)) == Meant(zSql, edit, list[k])
            <==> !RunsOn(zSql, list, edit, list[k])
  {
    var rest := FromToken(zSql, list, edit, k);
    ReadsBackIff(Replaced(zSql, list, New(zSql, edit), list[k].z), Meant(zSql, edit, list[k]), Mark(edit),
                 rest, RunsOn(zSql, list, edit, list[k]));
  }

  // So the result of the edit holds every new token, readable as meant.
  lemma ResultReads(zSql: string, list: seq<RenameToken>, edit: Edit, k: nat) returns (before: string, rest: string)
    requires Inside(zSql, list) && Disjoint(list) && Spelled(edit) && k < |list| && Requoted(zSql, edit, list[k])
    ensures Replaced(zSql, list, New(zSql, edit), 0) == before + rest
    ensures Dequote(rest) == Meant(zSql, edit, list[k]) <==> !RunsOn(zSql, list, edit, list[k])
  {
    forall j | 0 <= j < |list| ensures !(list[j].z < list[k].z < list[j].z + list[j].n) {
      assert j != k ==> Apart(list[j], list[k]);
    }
    before := TailOfResult(zSql, list, New(zSql, edit), 0, list[k].z);
    rest := Replaced(zSql, list, New(zSql, edit), list[k].z);
    ReadsAsMeant(zSql, list, edit, k);
  }

  // No listed token starts where another one ends, as when SQL has a space, an
  // operator or a keyword between any two names.
  predicate Separated(list: seq<RenameToken>) {
    forall j, k {:trigger list[j], list[k]} :: 0 <= j < |list| && 0 <= k < |list| ==> list[j].z + list[j].n != list[k].z
  }

  // Then every requoted token reads as meant.
  lemma SeparatedTokensRead(zSql: string, list: seq<RenameToken>, edit: Edit, k: nat)
    returns (before: string, rest: string)
    requires Inside(zSql, list) && Disjoint(list) && Spelled(edit) && Separated(list)
    requires k < |list| && Requoted(zSql, edit, list[k])
    ensures Replaced(zSql, list, New(zSql, edit), 0) == before + rest
    ensures Dequote(rest) == Meant(zSql, edit, list[k])
  {
    before, rest := ResultReads(zSql, list, edit, k);
  }

  // No listed token follows t at once.
  predicate StandsAlone(list: seq<RenameToken>, t: RenameToken) {
    forall j :: 0 <= j < |list| ==> list[j].z != t.z + t.n
  }

  // What stands at the place of a token t when it is renamed to zNew: the name in
  // double quotes if the ALTER TABLE statement quoted it or t is no bare
  // identifier, and otherwise the name as it is.
  predicate NamedAt(zSql: string, t: RenameToken, zNew: string, bQuote: bool, rest: string)
    requires t.z < |zSql|
  {
    if bQuote || !IsIdChar(zSql[t.z]) then rest != "" && rest[0] == '"' && Dequote(rest) == zNew else zNew <= rest
  }

  lemma AloneAfter(zSql: string, list: seq<RenameToken>, edit: Edit, t: RenameToken, tail: string)
    requires Inside(zSql, list) && t.z + t.n <= |zSql| && StandsAlone(list, t)
    requires tail == Replaced(zSql, list, New(zSql, edit), t.z + t.n)
    ensures var rest := Space(zSql, edit, t) + tail; rest == [] || rest[0] != Mark(edit)
  {
  }

  lemma AloneFrom(zSql: string, list: seq<RenameToken>, edit: Edit, k: nat) returns (rest: string)
    requires Inside(zSql, list) && Disjoint(list) && k < |list| && StandsAlone(list, list[k])
    ensures rest == Replaced(zSql, list, New(zSql, edit), list[k].z)
    ensures edit.NewName? ==> NamedAt(zSql, list[k], edit.zNew, edit.bQuote, rest)
    ensures edit.QuoteFix? ==> rest != "" && rest[0] == '\'' && Dequote(rest) == Dequote(Text(zSql, list[k]))
  {
    var t := list[k];
    var tail := Replaced(zSql, list, New(zSql, edit), t.z + t.n);
    rest := Replaced(zSql, list, New(zSql, edit), t.z);
    if Requoted(zSql, edit, t) {
      StartsQuoted(zSql, list, edit, k, tail);
      AloneAfter(zSql, list, edit, t, tail);
      QuoteReadsBack(Meant(zSql, edit, t), Mark(edit), Space(zSql, edit, t) + tail);
    } else {
      ReplacedFrom(zSql, list, New(zSql, edit), k, edit.zNew, tail);
    }
  }

  // The new token alone, before a space or the rest of the statement.
  predicate Spelling(zSql: string, t: RenameToken, edit: Edit, x: string)
    requires t.z < |zSql|
  {
    match edit
    case NewName(zNew, bQuote) => x == if bQuote || !IsIdChar(zSql[t.z]) then Quote(zNew, '"') else zNew
    case QuoteFix => x == Quote(Dequote(Text(zSql, t)), '\'')
  }

  // The space after it: only where a quoted token would meet a quote of its own kind.
  function Gap(zSql: string, t: RenameToken, edit: Edit, x: string): string {
    var q := if edit.QuoteFix? then '\'' else '"';
    if (edit.QuoteFix? || x != edit.zNew) && t.z + t.n < |zSql| && zSql[t.z + t.n] == q then " " else ""
  }

  lemma SpelledOut(zSql: string, t: RenameToken, edit: Edit) returns (x: string)
    requires t.z < |zSql|
    ensures Spelling(zSql, t, edit, x) && Replacement(zSql, edit, t) == x + Gap(zSql, t, edit, x)
  {
    if Requoted(zSql, edit, t) {
      x := Quote(Meant(zSql, edit, t), Mark(edit));
      if edit.NewName? {
        DoubledLength(edit.zNew, '"');
      }
    } else {
      x := edit.zNew;
    }
  }

  // Nothing else is put into the statement.
  lemma NothingElse(zSql: string, list: seq<RenameToken>, edit: Edit, k: nat) returns (x: string)
    requires Inside(zSql, list) && Disjoint(list) && k < |list|
    ensures Spelling(zSql, list[k], edit, x)
    ensures Replaced(zSql, list, New(zSql, edit), list[k].z)
      == x + Gap(zSql, list[k], edit, x) + Replaced(zSql, list, New(zSql, edit), list[k].z + list[k].n)
  {
    x := SpelledOut(zSql, list[k], edit);
    ReplacedFrom(zSql, list, New(zSql, edit), k, x + Gap(zSql, list[k], edit, x),
                 Replaced(zSql, list, New(zSql, edit), list[k].z + list[k].n));
  }

  // Every token that no other one follows at once is found in the result, spelled
  // as it must be.
  lemma TokenSpelled(zSql: string, list: seq<RenameToken>, edit: Edit, k: nat) returns (before: string, rest: string)
    requires Inside(zSql, list) && Disjoint(list) && k < |list| && StandsAlone(list, list[k])
    ensures Replaced(zSql, list, New(zSql, edit), 0) == before + rest
    ensures rest == Replaced(zSql, list, New(zSql, edit), list[k].z)
    ensures edit.NewName? ==> NamedAt(zSql, list[k], edit.zNew, edit.bQuote, rest)
    ensures edit.QuoteFix? ==> rest != "" && rest[0] == '\'' && Dequote(rest) == Dequote(Text(zSql, list[k]))
  {
    forall j | 0 <= j < |list| ensures !(list[j].z < list[k].z < list[j].z + list[j].n) {
      assert j != k ==> Apart(list[j], list[k]);
    }
    before := TailOfResult(zSql, list, New(zSql, edit), 0, list[k].z);
    rest := AloneFrom(zSql, list, edit, k);
  }

  // A list of adjacent tokens makes them run together.  No statement is known
  // that puts such a list together.
  lemma AdjacentTokensMerge()
    ensures var zSql := "[a][a]";
      var list := [RenameToken(1, 0, 3), RenameToken(2, 3, 3)];
      var edit := NewName("b", false);
      && Inside(zSql, list) && Disjoint(list) && RunsOn(zSql, list, edit, list[0])
      && Dequote(Replaced(zSql, list, New(zSql, edit), 0)) != "b"
  {
    var zSql := "[a][a]";
    var list := [RenameToken(1, 0, 3), RenameToken(2, 3, 3)];
    var edit := NewName("b", false);
    assert list[1].z == list[0].z + list[0].n && zSql[3] == '[';
    assert RunsOn(zSql, list, edit, list[0]);
    ReadsAsMeant(zSql, list, edit, 0);
  }
}
