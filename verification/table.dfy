/**
 * The in-memory account database `ALL_ACCOUNTS`: lookup, loading one
 * account, and loading the lines of the account file.
 */
module AccountTable {
  import opened Maybe
  import opened Text
  import opened Amounts
  import opened Accounts

  /** Account number to account record. */
  type Table = map<string, Account>

  /** Every key is a valid number, filed under its own number, and every record is well formed. */
  predicate TableOk(t: Table) {
    forall n :: n in t ==> AcctNumberIsValid(n) && t[n].number == n && AccountOk(t[n])
  }

  /** `get_acct`: the record, or `None` (the source's `False`) for a malformed or unknown number. */
  function GetAcct(t: Table, n: string): (r: Option<Account>)
    ensures r.Some? <==> AcctNumberIsValid(n) && n in t
    ensures r.Some? ==> r.value == t[n]
  {
    if AcctNumberIsValid(n) && n in t then Some(t[n]) else None
  }

  /** On a well-formed table a lookup succeeds exactly for the stored numbers. */
  lemma GetAcctOnOkTable(t: Table, n: string)
    requires TableOk(t)
    ensures GetAcct(t, n).Some? <==> n in t
    ensures GetAcct(t, n).Some? ==> GetAcct(t, n).value.number == n
  {
  }

  /** The table after `load_account` and the boolean it returns. */
  datatype LoadResult = LoadResult(table: Table, loaded: bool)

  /**
   * `load_account(num, pin, bal_text)`: parse the balance, then insert a new
   * account under a valid number not already present. A balance that does not
   * parse, a malformed number and a duplicate all leave the table as it was.
   */
  function LoadAccount(t: Table, num: string, pin: string, balText: string): (r: LoadResult)
    ensures r.loaded <==> ParseAmount(balText).Some? && AcctNumberIsValid(num) && num !in t
    ensures !r.loaded ==> r.table == t
    ensures r.loaded ==> r.table.Keys == t.Keys + {num}
    ensures r.loaded ==> forall n :: n in t ==> r.table[n] == t[n]
    ensures r.loaded ==> GetAcct(r.table, num) == Some(NewAccount(num, pin, ParseAmount(balText).value))
    ensures TableOk(t) ==> TableOk(r.table)
  {
    match ParseAmount(balText)
    case None => LoadResult(t, false)
    case Some(bal) =>
      if !AcctNumberIsValid(num) then LoadResult(t, false)
      else if GetAcct(t, num).Some? then LoadResult(t, false)
      else LoadResult(t[num := NewAccount(num, pin, bal)], true)
  }

  /** A parseable but invalid balance (a negative one, say) still loads, with the balance 0.0. */
  lemma LoadKeepsDefaultBalance(t: Table, num: string, pin: string, balText: string)
    requires AcctNumberIsValid(num) && num !in t
    requires ParseAmount(balText).Some? && !AmountIsValid(ParseAmount(balText).value)
    ensures LoadAccount(t, num, pin, balText).loaded
    ensures LoadAccount(t, num, pin, balText).table[num] == Account(num, NewAccount(num, pin, 0.0).pin, 0.0)
  {
  }

  /** An invalid PIN still loads, with the PIN "", whatever the balance. */
  lemma LoadKeepsDefaultPin(t: Table, num: string, pin: string, balText: string)
    requires AcctNumberIsValid(num) && num !in t
    requires ParseAmount(balText).Some? && !AcctPinIsValid(pin)
    ensures LoadAccount(t, num, pin, balText).loaded
    ensures LoadAccount(t, num, pin, balText).table[num].pin == ""
    ensures LoadAccount(t, num, pin, balText).table[num].number == num
  {
  }

  /** `line.lower().replace(" ", "").split(',')`. */
  function LineFields(line: string): (fields: seq<string>)
    ensures |fields| >= 1
    ensures forall i :: 0 <= i < |fields| ==> ' ' !in fields[i] && ',' !in fields[i]
    ensures Join(fields, ",") == Without(Lower(line), ' ')
  {
    var cleaned := Without(Lower(line), ' ');
    var fields := Split(cleaned, ",");
    SplitPieces(cleaned, ",");
    JoinSplit(cleaned, ",");
    assert forall i :: 0 <= i < |fields| ==> ' ' !in fields[i] by {
      forall i | 0 <= i < |fields| ensures ' ' !in fields[i] {
        assert ' ' in fields[i] ==> ' ' in cleaned;
      }
    }
    fields
  }

  /** The comma-free text `a` as a normalised field: lower-cased, spaces removed, still comma-free. */
  lemma NormalisedPiece(a: string)
    requires ',' !in a
    ensures ',' !in Without(Lower(a), ' ')
  {
    LowerKeepsOther(a, ',');
  }

  /** Normalising text joined at a comma normalises each side and keeps the comma. */
  lemma NormaliseAtComma(x: string, y: string)
    ensures Without(Lower(x + "," + y), ' ') == Without(Lower(x), ' ') + "," + Without(Lower(y), ' ')
  {
    LowerAppend(x + ",", y);
    LowerAppend(x, ",");
    assert Lower(",") == ",";
    WithoutAppend(Lower(x) + ",", Lower(y), ' ');
    WithoutAppend(Lower(x), ",", ' ');
    WithoutSingle(',', ' ');
  }

  /** Three pieces joined by commas. */
  lemma JoinThree(a: string, b: string, c: string)
    ensures Join([a, b, c], ",") == a + "," + b + "," + c
  {
    var parts := [a, b, c];
    assert parts[1..] == [b, c];
    assert [b, c][1..] == [c];
    assert Join([b, c], ",") == b + "," + c;
    assert Join(parts, ",") == a + "," + (b + "," + c);
  }

  /** Three comma-free pieces joined by commas split back into the three pieces. */
  lemma SplitThree(a: string, b: string, c: string)
    requires ',' !in a && ',' !in b && ',' !in c
    ensures Split(a + "," + b + "," + c, ",") == [a, b, c]
  {
    JoinThree(a, b, c);
    SplitJoin([a, b, c], ",");
  }

  /**
   * A line made of three comma-free pieces yields exactly those pieces,
   * each lower-cased and stripped of spaces, in order.
   */
  lemma LineFieldsOfThree(a: string, b: string, c: string)
    requires ',' !in a && ',' !in b && ',' !in c
    ensures LineFields(a + "," + b + "," + c) ==
            [Without(Lower(a), ' '), Without(Lower(b), ' '), Without(Lower(c), ' ')]
  {
    var wa, wb, wc := Without(Lower(a), ' '), Without(Lower(b), ' '), Without(Lower(c), ' ');
    var line := a + "," + b + "," + c;
    var cleaned := Without(Lower(line), ' ');
    NormaliseAtComma(a + "," + b, c);
    NormaliseAtComma(a, b);
    assert cleaned == wa + "," + wb + "," + wc;
    NormalisedPiece(a);
    NormalisedPiece(b);
    NormalisedPiece(c);
    SplitThree(wa, wb, wc);
  }

  /** One line of the account file: comments and lines without exactly three fields are ignored. */
  function LoadLine(t: Table, line: string): Table
    requires |line| > 0
  {
    if line[0] == '#' then t
    else
      var fields := LineFields(line);
      if |fields| != 3 then t else LoadAccount(t, fields[0], fields[1], fields[2]).table
  }

  /**
   * `load_all_accounts` after the file is opened: lines are read until the
   * first empty one, which is how `readline` reports the end of the file.
   */
  function LoadAll(t: Table, lines: seq<string>): Table
    decreases |lines|
  {
    if |lines| == 0 || lines[0] == "" then t
    else LoadAll(LoadLine(t, lines[0]), lines[1..])
  }

  /** A line reaches `load_account` exactly when it is no comment and has three fields, passed in order. */
  lemma LoadLineCases(t: Table, line: string)
    requires |line| > 0
    ensures line[0] == '#' ==> LoadLine(t, line) == t
    ensures line[0] != '#' && |LineFields(line)| != 3 ==> LoadLine(t, line) == t
    ensures line[0] != '#' && |LineFields(line)| == 3 ==>
              var f := LineFields(line);
              LoadLine(t, line) == LoadAccount(t, f[0], f[1], f[2]).table
  {
  }

  /** Loading never changes or removes an account already present: the first occurrence wins. */
  lemma {:induction false} LoadAllKeepsEarlier(t: Table, lines: seq<string>, n: string)
    requires n in t
    ensures n in LoadAll(t, lines) && LoadAll(t, lines)[n] == t[n]
    decreases |lines|
  {
    if |lines| > 0 && lines[0] != "" {
      var t1 := LoadLine(t, lines[0]);
      assert n in t1 && t1[n] == t[n];
      LoadAllKeepsEarlier(t1, lines[1..], n);
    }
  }

  /** Whatever the file holds, the loaded table is well formed. */
  lemma {:induction false} LoadAllOk(t: Table, lines: seq<string>)
    requires TableOk(t)
    ensures TableOk(LoadAll(t, lines))
    decreases |lines|
  {
    if |lines| > 0 && lines[0] != "" {
      LoadAllOk(LoadLine(t, lines[0]), lines[1..]);
    }
  }

  /** Lines after the first empty one are never read. */
  lemma {:induction false} LoadAllStopsAtEmpty(t: Table, before: seq<string>, after: seq<string>)
    ensures LoadAll(t, before + [""] + after) == LoadAll(t, before + [""])
    decreases |before|
  {
    if |before| > 0 && before[0] != "" {
      assert (before + [""] + after)[1..] == before[1..] + [""] + after;
      assert (before + [""])[1..] == before[1..] + [""];
      LoadAllStopsAtEmpty(LoadLine(t, before[0]), before[1..], after);
    }
  }
}
