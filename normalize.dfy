/**
 * The field normaliser: the Salary, Age, HT and WT list comprehensions and
 * `convert_height`. Each rewrites the text cells of one column and passes
 * every other cell (NaN for a player the joins left without data) through.
 */
module Normalize {
  import opened Wrappers
  import opened PyText
  import opened PyNumbers
  import opened Tables

  /** `int(re.sub(r'[^\d]+', '', re.sub(r'--', '$0', s)))` */
  function NormalizeSalary(s: string): (r: Result<int>)
    ensures r.Ok? ==> r.value >= 0
  {
    var digits := KeepDigits(ReplaceDashes(s, "$0"));
    if digits == [] then
      ParseIntBlank(digits);
      ParseInt(digits)
    else
      ParseDigits(digits);
      ParseInt(digits)
  }

  /** `int(re.sub(r'--', '0', s))` */
  function NormalizeAge(s: string): Result<int>
  {
    ParseInt(ReplaceDashes(s, "0"))
  }

  /**
   * `convert_height`: `12 * feet + inches` from the first two
   * whitespace-separated tokens, with `'` dropped from the first and `"` from
   * the second. `float` is applied to the first token before the second is
   * looked up, so a lone unreadable token is a ValueError, not an IndexError.
   */
  function ConvertHeight(s: string): Result<int>
  {
    var parts := SplitWhitespace(s);
    if |parts| == 0 then Err(IndexError)
    else
      var feet :- ParseInt(RemoveChar(parts[0], '\''));
      if |parts| < 2 then Err(IndexError)
      else
        var inches :- ParseInt(RemoveChar(parts[1], '"'));
        Ok(12 * feet + inches)
  }

  /** `float(s.split(" ")[0])` */
  function ConvertWeight(s: string): Result<int>
  {
    ParseInt(FirstPiece(s, ' '))
  }

  // ---------------------------------------------------------------- columns

  /** One cell of a list comprehension `[f(x) if isinstance(x, str) else x for x in ...]`. */
  function ConvertCell(x: Cell, f: string -> Result<int>): Result<Cell>
  {
    if x.Text? then
      var n :- f(x.s);
      Ok(Number(n))
    else
      Ok(x)
  }

  /**
   * The whole comprehension: text cells are rewritten in order and the first
   * one `f` rejects aborts the statement; other cells are kept.
   */
  function ConvertCells(cells: seq<Cell>, f: string -> Result<int>): (r: Result<seq<Cell>>)
    ensures r.Ok? <==> forall k :: 0 <= k < |cells| ==> ConvertCell(cells[k], f).Ok?
    ensures r.Ok? ==> |r.value| == |cells| && forall k :: 0 <= k < |cells| ==> r.value[k] == ConvertCell(cells[k], f).value
    ensures r.Err? ==> exists k :: 0 <= k < |cells| && ConvertCell(cells[k], f) == Err(r.error)
                         && forall j :: 0 <= j < k ==> ConvertCell(cells[j], f).Ok?
  {
    if cells == [] then Ok([])
    else
      var head :- ConvertCell(cells[0], f);
      var rest :- ConvertCells(cells[1..], f);
      assert forall k :: 1 <= k < |cells| ==> cells[k] == cells[1..][k - 1];
      Ok([head] + rest)
  }

  /**
   * `df[c] = [f(x) if isinstance(x, str) else x for x in df[c].values]`:
   * a KeyError when the frame has no column `c`, otherwise column `c` is
   * rewritten cell by cell.
   */
  function NormalizeColumn(t: Table, c: string, f: string -> Result<int>): Result<Table>
  {
    if c !in Columns(t) then Err(KeyError(c))
    else
      var cells :- ConvertCells(Column(t, c), f);
      Ok(SetColumn(t, c, cells))
  }

  /** One rewrite of the normaliser: the column it touches and the rule applied to its text cells. */
  datatype Step = Step(column: string, rule: string -> Result<int>)

  /** The four rewrites, in the order the script applies them. */
  const Steps: seq<Step> := [Step("Salary", NormalizeSalary), Step("Age", NormalizeAge), Step("HT", ConvertHeight), Step("WT", ConvertWeight)]

  function ApplySteps(t: Table, steps: seq<Step>): Result<Table>
    decreases |steps|
  {
    if steps == [] then Ok(t)
    else
      var t1 :- NormalizeColumn(t, steps[0].column, steps[0].rule);
      ApplySteps(t1, steps[1..])
  }

  /** The Salary, Age, HT and WT rewrites of the joined frame. */
  function NormalizeTable(t: Table): Result<Table>
  {
    ApplySteps(t, Steps)
  }

  predicate DistinctColumns(steps: seq<Step>) {
    forall a, b :: 0 <= a < b < |steps| ==> steps[a].column != steps[b].column
  }

  predicate Touches(steps: seq<Step>, d: string) {
    exists k :: 0 <= k < |steps| && steps[k].column == d
  }

  /** Every rewrite finds its column and accepts every text cell in it. */
  predicate StepsSucceed(t: Table, steps: seq<Step>) {
    forall k :: 0 <= k < |steps| ==>
      steps[k].column in Columns(t) &&
      forall i :: 0 <= i < |t| ==> ConvertCell(Lookup(t[i].row, steps[k].column), steps[k].rule).Ok?
  }

  /** One rewrite fails exactly when the column is absent (a KeyError naming it) or one of its text cells is rejected. */
  lemma NormalizeColumnFails(t: Table, c: string, f: string -> Result<int>)
    ensures NormalizeColumn(t, c, f).Err? <==>
              c !in Columns(t) || exists i :: 0 <= i < |t| && ConvertCell(Lookup(t[i].row, c), f).Err?
    ensures c !in Columns(t) ==> NormalizeColumn(t, c, f) == Err(KeyError(c))
  {
    if c in Columns(t) {
      var col := Column(t, c);
      var cells := ConvertCells(col, f);
      if cells.Err? {
        var k :| 0 <= k < |col| && ConvertCell(col[k], f) == Err(cells.error);
        assert ConvertCell(Lookup(t[k].row, c), f).Err?;
      }
    }
  }

  /**
   * After a successful rewrite every row keeps its label, column `c` holds
   * the converted cells, and the columns and every other column's cells are
   * unchanged.
   */
  lemma NormalizeColumnSpec(t: Table, c: string, f: string -> Result<int>)
    ensures var r := NormalizeColumn(t, c, f);
            r.Ok? ==> |r.value| == |t| && Columns(r.value) == Columns(t) &&
                      (forall i :: 0 <= i < |t| ==> r.value[i].name == t[i].name) &&
                      (forall i :: 0 <= i < |t| ==> Lookup(r.value[i].row, c) == ConvertCell(Lookup(t[i].row, c), f).value) &&
                      (forall i, d :: 0 <= i < |t| && d != c ==> Lookup(r.value[i].row, d) == Lookup(t[i].row, d))
  {
    if c in Columns(t) {
      var cells := ConvertCells(Column(t, c), f);
      if cells.Ok? {
        ColumnsOfSetColumn(t, c, cells.value);
      }
    }
  }

  /**
   * After a successful rewrite of column `c`, a later rewrite of any other
   * column sees the same columns and the same cells as before it.
   */
  lemma StepsSucceedAfter(t: Table, t1: Table, s0: Step, steps: seq<Step>)
    requires NormalizeColumn(t, s0.column, s0.rule) == Ok(t1)
    requires forall k :: 0 <= k < |steps| ==> steps[k].column != s0.column
    ensures StepsSucceed(t1, steps) <==> StepsSucceed(t, steps)
  {
    NormalizeColumnSpec(t, s0.column, s0.rule);
  }

  /** The rewrites of distinct columns, applied in turn, succeed exactly when each would succeed on the original frame. */
  lemma {:induction false} ApplyStepsSucceeds(t: Table, steps: seq<Step>)
    requires DistinctColumns(steps)
    ensures ApplySteps(t, steps).Ok? <==> StepsSucceed(t, steps)
    decreases |steps|
  {
    if steps != [] {
      var s0 := steps[0];
      NormalizeColumnFails(t, s0.column, s0.rule);
      var first := NormalizeColumn(t, s0.column, s0.rule);
      if first.Ok? {
        var rest := steps[1..];
        assert forall k :: 0 <= k < |rest| ==> rest[k] == steps[k + 1];
        ApplyStepsSucceeds(first.value, rest);
        StepsSucceedAfter(t, first.value, s0, rest);
      } else {
        assert !(s0.column in Columns(t) &&
                 forall i :: 0 <= i < |t| ==> ConvertCell(Lookup(t[i].row, s0.column), s0.rule).Ok?);
      }
    }
  }

  /**
   * `r` is `t` after `steps`: every row keeps its label, each rewritten
   * column holds its converted original cells and every other column is
   * unchanged.
   */
  ghost predicate Rewritten(t: Table, r: Table, steps: seq<Step>) {
    && |r| == |t|
    && (forall i :: 0 <= i < |t| ==> r[i].name == t[i].name)
    && (forall k, i :: 0 <= k < |steps| && 0 <= i < |t| ==>
          ConvertCell(Lookup(t[i].row, steps[k].column), steps[k].rule) == Ok(Lookup(r[i].row, steps[k].column)))
    && (forall i, d :: 0 <= i < |t| && !Touches(steps, d) ==> Lookup(r[i].row, d) == Lookup(t[i].row, d))
  }

  lemma TouchesCons(s0: Step, rest: seq<Step>, d: string)
    ensures Touches([s0] + rest, d) <==> s0.column == d || Touches(rest, d)
  {
    var steps := [s0] + rest;
    assert steps[0] == s0;
    if Touches(rest, d) {
      var k :| 0 <= k < |rest| && rest[k].column == d;
      assert steps[k + 1] == rest[k];
    }
    if Touches(steps, d) && s0.column != d {
      var k :| 0 <= k < |steps| && steps[k].column == d;
      assert rest[k - 1] == steps[k];
    }
  }

  /** A rewrite of column `c` followed by rewrites of other columns is the rewrite by all of them. */
  lemma RewrittenCons(t: Table, t1: Table, r: Table, s0: Step, rest: seq<Step>)
    requires NormalizeColumn(t, s0.column, s0.rule) == Ok(t1)
    requires !Touches(rest, s0.column)
    requires Rewritten(t1, r, rest)
    ensures Rewritten(t, r, [s0] + rest)
  {
    NormalizeColumnFails(t, s0.column, s0.rule);
    NormalizeColumnSpec(t, s0.column, s0.rule);
    var steps := [s0] + rest;
    forall k, i | 0 <= k < |steps| && 0 <= i < |t|
      ensures ConvertCell(Lookup(t[i].row, steps[k].column), steps[k].rule) == Ok(Lookup(r[i].row, steps[k].column))
    {
      if k > 0 {
        assert steps[k] == rest[k - 1];
        assert steps[k].column != s0.column;
      }
    }
    forall i, d | 0 <= i < |t| && !Touches(steps, d)
      ensures Lookup(r[i].row, d) == Lookup(t[i].row, d)
    {
      TouchesCons(s0, rest, d);
    }
  }

  /** The rewrites of distinct columns, when each succeeds on the original frame, rewrite it as `Rewritten` says. */
  lemma {:induction false} ApplyStepsSpec(t: Table, steps: seq<Step>)
    requires DistinctColumns(steps)
    ensures StepsSucceed(t, steps) ==> ApplySteps(t, steps).Ok? && Rewritten(t, ApplySteps(t, steps).value, steps)
    decreases |steps|
  {
    ApplyStepsSucceeds(t, steps);
    if steps != [] && StepsSucceed(t, steps) {
      var s0 := steps[0];
      var t1 := NormalizeColumn(t, s0.column, s0.rule).value;
      var rest := steps[1..];
      assert steps == [s0] + rest;
      assert forall k :: 0 <= k < |rest| ==> rest[k] == steps[k + 1];
      assert !Touches(rest, s0.column);
      StepsSucceedAfter(t, t1, s0, rest);
      ApplyStepsSpec(t1, rest);
      RewrittenCons(t, t1, ApplySteps(t1, rest).value, s0, rest);
    }
  }

  /** The four columns the normaliser rewrites. */
  const Fields: set<string> := {"Salary", "Age", "HT", "WT"}

  /** The frame has all four columns. */
  predicate HasFields(t: Table) {
    "Salary" in Columns(t) && "Age" in Columns(t) && "HT" in Columns(t) && "WT" in Columns(t)
  }

  /** Every rule accepts the row's cell in its column. */
  predicate RowAccepted(row: Row) {
    ConvertCell(Lookup(row, "Salary"), NormalizeSalary).Ok? &&
    ConvertCell(Lookup(row, "Age"), NormalizeAge).Ok? &&
    ConvertCell(Lookup(row, "HT"), ConvertHeight).Ok? &&
    ConvertCell(Lookup(row, "WT"), ConvertWeight).Ok?
  }

  /** `after` holds the converted cells of `before` in the four columns and the same cells elsewhere. */
  ghost predicate RowNormalized(before: Row, after: Row)
    requires RowAccepted(before)
  {
    Lookup(after, "Salary") == ConvertCell(Lookup(before, "Salary"), NormalizeSalary).value &&
    Lookup(after, "Age") == ConvertCell(Lookup(before, "Age"), NormalizeAge).value &&
    Lookup(after, "HT") == ConvertCell(Lookup(before, "HT"), ConvertHeight).value &&
    Lookup(after, "WT") == ConvertCell(Lookup(before, "WT"), ConvertWeight).value &&
    forall d :: d !in Fields ==> Lookup(after, d) == Lookup(before, d)
  }

  lemma StepsAreTheFields()
    ensures Steps[0] == Step("Salary", NormalizeSalary) && Steps[1] == Step("Age", NormalizeAge)
    ensures Steps[2] == Step("HT", ConvertHeight) && Steps[3] == Step("WT", ConvertWeight)
    ensures |Steps| == 4 && DistinctColumns(Steps)
    ensures forall d :: d !in Fields ==> !Touches(Steps, d)
  {
  }

  /** The normaliser succeeds exactly when the frame has all four columns and every row's cells in them are accepted. */
  lemma NormalizeTableFails(t: Table)
    ensures NormalizeTable(t).Ok? <==> HasFields(t) && forall i :: 0 <= i < |t| ==> RowAccepted(t[i].row)
  {
    StepsAreTheFields();
    ApplyStepsSucceeds(t, Steps);
    if HasFields(t) && forall i :: 0 <= i < |t| ==> RowAccepted(t[i].row) {
      StepsSucceedIfAccepted(t);
    }
    if StepsSucceed(t, Steps) {
      AcceptedIfStepsSucceed(t);
    }
  }

  lemma AcceptedIfStepsSucceed(t: Table)
    requires StepsSucceed(t, Steps)
    ensures HasFields(t) && forall i :: 0 <= i < |t| ==> RowAccepted(t[i].row)
  {
    StepsAreTheFields();
    assert Steps[0].column in Columns(t) && Steps[1].column in Columns(t);
    assert Steps[2].column in Columns(t) && Steps[3].column in Columns(t);
    forall i | 0 <= i < |t| ensures RowAccepted(t[i].row) {
      assert ConvertCell(Lookup(t[i].row, Steps[0].column), Steps[0].rule).Ok?;
      assert ConvertCell(Lookup(t[i].row, Steps[1].column), Steps[1].rule).Ok?;
      assert ConvertCell(Lookup(t[i].row, Steps[2].column), Steps[2].rule).Ok?;
      assert ConvertCell(Lookup(t[i].row, Steps[3].column), Steps[3].rule).Ok?;
    }
  }

  lemma StepsSucceedIfAccepted(t: Table)
    requires HasFields(t) && forall i :: 0 <= i < |t| ==> RowAccepted(t[i].row)
    ensures StepsSucceed(t, Steps)
  {
    StepsAreTheFields();
    forall k | 0 <= k < |Steps|
      ensures Steps[k].column in Columns(t)
      ensures forall i :: 0 <= i < |t| ==> ConvertCell(Lookup(t[i].row, Steps[k].column), Steps[k].rule).Ok?
    {
      assert k == 0 || k == 1 || k == 2 || k == 3;
    }
  }

  /** On success every row keeps its label and is normalised in the four columns and nowhere else. */
  lemma NormalizeTableRows(t: Table)
    requires NormalizeTable(t).Ok?
    ensures |NormalizeTable(t).value| == |t|
    ensures forall i :: 0 <= i < |t| ==> NormalizeTable(t).value[i].name == t[i].name
    ensures forall i :: 0 <= i < |t| ==> RowAccepted(t[i].row) && RowNormalized(t[i].row, NormalizeTable(t).value[i].row)
  {
    StepsAreTheFields();
    ApplyStepsSucceeds(t, Steps);
    ApplyStepsSpec(t, Steps);
    var r := NormalizeTable(t).value;
    forall i | 0 <= i < |t| ensures RowAccepted(t[i].row) && RowNormalized(t[i].row, r[i].row) {
      assert ConvertCell(Lookup(t[i].row, Steps[0].column), Steps[0].rule) == Ok(Lookup(r[i].row, Steps[0].column));
      assert ConvertCell(Lookup(t[i].row, Steps[1].column), Steps[1].rule) == Ok(Lookup(r[i].row, Steps[1].column));
      assert ConvertCell(Lookup(t[i].row, Steps[2].column), Steps[2].rule) == Ok(Lookup(r[i].row, Steps[2].column));
      assert ConvertCell(Lookup(t[i].row, Steps[3].column), Steps[3].rule) == Ok(Lookup(r[i].row, Steps[3].column));
    }
  }

  /** A cell that was converted is no longer text. */
  lemma ConvertCellNotText(x: Cell, f: string -> Result<int>)
    requires ConvertCell(x, f).Ok?
    ensures !ConvertCell(x, f).value.Text?
    ensures x.Text? ==> ConvertCell(x, f).value == Number(f(x.s).value)
  {
  }

  /** A normalised row has no text left in the four columns, and a written-out salary became a number of at least zero. */
  lemma NormalizedRowIsNumbers(before: Row, after: Row)
    requires RowAccepted(before) && RowNormalized(before, after)
    ensures forall c :: c in Fields ==> !Lookup(after, c).Text?
    ensures Lookup(before, "Salary").Text? ==> Lookup(after, "Salary").Number? && Lookup(after, "Salary").n >= 0
  {
    ConvertCellNotText(Lookup(before, "Salary"), NormalizeSalary);
    ConvertCellNotText(Lookup(before, "Age"), NormalizeAge);
    ConvertCellNotText(Lookup(before, "HT"), ConvertHeight);
    ConvertCellNotText(Lookup(before, "WT"), ConvertWeight);
    if Lookup(before, "Salary").Text? {
      var n := NormalizeSalary(Lookup(before, "Salary").s);
      assert n.Ok? && n.value >= 0;
    }
  }

  /**
   * After the normaliser no text is left in Salary, Age, HT or WT, and every
   * salary that was written out is now a number of at least zero.
   */
  lemma NormalizedFieldsAreNumbers(t: Table)
    requires NormalizeTable(t).Ok?
    ensures |NormalizeTable(t).value| == |t|
    ensures forall i, c :: 0 <= i < |t| && c in Fields ==>
              !Lookup(NormalizeTable(t).value[i].row, c).Text?
    ensures forall i :: 0 <= i < |t| && Lookup(t[i].row, "Salary").Text? ==>
              Lookup(NormalizeTable(t).value[i].row, "Salary").Number? && Lookup(NormalizeTable(t).value[i].row, "Salary").n >= 0
  {
    NormalizeTableRows(t);
    var r := NormalizeTable(t).value;
    forall i | 0 <= i < |t|
      ensures forall c :: c in Fields ==> !Lookup(r[i].row, c).Text?
      ensures Lookup(t[i].row, "Salary").Text? ==> Lookup(r[i].row, "Salary").Number? && Lookup(r[i].row, "Salary").n >= 0
    {
      NormalizedRowIsNumbers(t[i].row, r[i].row);
    }
  }

  // ---------------------------------------------------------------- the rules stated for all inputs

  /** A salary is zero-or-more; it fails exactly when the text has neither a digit nor a "--". */
  lemma SalaryFails(s: string)
    ensures NormalizeSalary(s).Err? <==> !HasDigit(s) && !HasDashPair(s)
  {
    var subbed := ReplaceDashes(s, "$0");
    assert HasDigit("$0") by { assert IsDigit("$0"[1]); }
    ReplaceDashesHasDigit(s, "$0");
    KeepDigitsEmpty(subbed);
    var digits := KeepDigits(subbed);
    if digits != [] {
      ParseDigits(digits);
    }
  }

  /** Without the "--" sentinel a salary is the decimal value of the input's digits, read in order. */
  lemma SalaryIsItsDigits(s: string)
    requires HasDigit(s) && !HasDashPair(s)
    ensures NormalizeSalary(s) == Ok(DigitsValue(KeepDigits(s)) as int)
  {
    DigitsWithoutSentinel(s, "$0");
    KeepDigitsEmpty(s);
    ParseDigits(KeepDigits(s));
  }

  /** Every non-empty digit string, leading zeros included, is read as its decimal value. */
  lemma AgeOfDigits(d: string)
    requires |d| > 0 && forall k :: 0 <= k < |d| ==> IsDigit(d[k])
    ensures NormalizeAge(d) == Ok(DigitsValue(d) as int)
  {
    assert !HasDashPair(d) by {
      forall k | 0 <= k < |d| - 1 ensures !(d[k] == '-' && d[k + 1] == '-') {
        assert IsDigit(d[k]);
      }
    }
    ReplaceDashesNoPair(d, "0");
    ParseDigits(d);
  }

  /** Any written-out integer is read back as itself as an age. */
  lemma AgeOfInteger(n: int)
    ensures NormalizeAge(IntToString(n)) == Ok(n)
  {
    var s := IntToString(n);
    assert !HasDashPair(s) by {
      var m: nat := if n < 0 then -n else n;
      var digits := NatToString(m);
      forall k | 0 <= k < |s| - 1 ensures !(s[k] == '-' && s[k + 1] == '-') {
        if n < 0 {
          assert s[k + 1] == digits[k];
        } else {
          assert s[k] == digits[k];
        }
      }
    }
    ReplaceDashesNoPair(s, "0");
    ParseIntToString(n);
  }

  /**
   * `convert_height` of any text whose whitespace-separated tokens are
   * `F'`, `I"` and possibly more (digit strings `F`, `I`) is `12 * F + I`.
   */
  lemma HeightOfDigits(s: string, f: string, i: string)
    requires |f| > 0 && forall k :: 0 <= k < |f| ==> IsDigit(f[k])
    requires |i| > 0 && forall k :: 0 <= k < |i| ==> IsDigit(i[k])
    requires |SplitWhitespace(s)| >= 2 && SplitWhitespace(s)[0] == f + "'" && SplitWhitespace(s)[1] == i + "\""
    ensures ConvertHeight(s).Ok? && ConvertHeight(s).value == 12 * DigitsValue(f) + DigitsValue(i)
  {
    var feet, inches := DigitsValue(f), DigitsValue(i);
    var parts := SplitWhitespace(s);
    assert RemoveChar(parts[0], '\'') == f by {
      assert parts[0] == f + ['\''];
      RemoveTrailingMark(f, '\'');
    }
    assert RemoveChar(parts[1], '"') == i by {
      assert parts[1] == i + ['"'];
      RemoveTrailingMark(i, '"');
    }
    ParseDigits(f);
    ParseDigits(i);
    HeightFromTokens(s, feet, inches);
    assert ConvertHeight(s) == Ok(12 * feet + inches);
  }

  /** For all feet and inches: `convert_height` of `F' I"`, with any further tokens, is `12 * feet + inches`. */
  lemma HeightOf(feet: nat, inches: nat, more: seq<string>)
    requires forall k :: 0 <= k < |more| ==> IsToken(more[k])
    ensures var h := ConvertHeight(JoinSpaced([NatToString(feet) + "'", NatToString(inches) + "\""] + more));
            h.Ok? && h.value == 12 * feet + inches
  {
    var f, i := NatToString(feet), NatToString(inches);
    var ts := [f + "'", i + "\""] + more;
    var s := JoinSpaced(ts);
    HeightTokens(f, i, more);
    assert SplitWhitespace(s) == ts;
    assert ts[0] == f + "'" && ts[1] == i + "\"";
    HeightOfDigits(s, f, i);
    DigitsValueOfNatToString(feet);
    DigitsValueOfNatToString(inches);
  }

  /** The two leading tokens of a written-out height. */
  lemma HeightTokens(f: string, i: string, more: seq<string>)
    requires forall k :: 0 <= k < |f| ==> IsDigit(f[k])
    requires forall k :: 0 <= k < |i| ==> IsDigit(i[k])
    requires forall k :: 0 <= k < |more| ==> IsToken(more[k])
    ensures SplitWhitespace(JoinSpaced([f + "'", i + "\""] + more)) == [f + "'", i + "\""] + more
  {
    DigitsThenMark(f, '\'');
    DigitsThenMark(i, '"');
    TokensBefore(f + "'", i + "\"", more);
    SplitJoinSpaced([f + "'", i + "\""] + more);
  }

  lemma DigitsThenMark(d: string, c: char)
    requires forall k :: 0 <= k < |d| ==> IsDigit(d[k])
    requires !IsSpace(c)
    ensures IsToken(d + [c])
  {
    var t := d + [c];
    forall k | 0 <= k < |t| ensures !IsSpace(t[k]) {
      if k < |d| { assert t[k] == d[k]; }
    }
  }

  lemma TokensBefore(t0: string, t1: string, more: seq<string>)
    requires IsToken(t0) && IsToken(t1)
    requires forall k :: 0 <= k < |more| ==> IsToken(more[k])
    ensures forall k :: 0 <= k < |[t0, t1] + more| ==> IsToken(([t0, t1] + more)[k])
  {
    var ts := [t0, t1] + more;
    forall k | 0 <= k < |ts| ensures IsToken(ts[k]) {
      if k >= 2 { assert ts[k] == more[k - 2]; }
    }
  }

  /** Two readable leading tokens give `12 * feet + inches`. */
  lemma HeightFromTokens(s: string, feet: int, inches: int)
    requires |SplitWhitespace(s)| >= 2
    requires ParseInt(RemoveChar(SplitWhitespace(s)[0], '\'')) == Ok(feet)
    requires ParseInt(RemoveChar(SplitWhitespace(s)[1], '"')) == Ok(inches)
    ensures ConvertHeight(s) == Ok(12 * feet + inches)
  {
  }

  lemma RemoveTrailingMark(d: string, c: char)
    requires forall k :: 0 <= k < |d| ==> IsDigit(d[k])
    requires !IsDigit(c)
    ensures RemoveChar(d + [c], c) == d
  {
    RemoveAbsentChar(d, c);
    RemoveCharAppend(d, [c], c);
  }

  lemma {:induction false} RemoveCharAppend(a: string, b: string, c: char)
    ensures RemoveChar(a + b, c) == RemoveChar(a, c) + RemoveChar(b, c)
    decreases |a|
  {
    if a == [] {
      assert a + b == b;
    } else {
      assert (a + b)[1..] == a[1..] + b;
      RemoveCharAppend(a[1..], b, c);
    }
  }

  /** Fewer than two tokens is an IndexError, unless the only token is already unreadable. */
  lemma HeightNeedsTwoTokens(s: string)
    requires |SplitWhitespace(s)| < 2
    ensures ConvertHeight(s).Err?
    ensures ConvertHeight(s).error == IndexError <==>
              |SplitWhitespace(s)| == 0 || ParseInt(RemoveChar(SplitWhitespace(s)[0], '\'')).Ok?
  {
  }

  /** The weight is the number spelled before the first single space, whatever follows it. */
  lemma WeightOfDigits(d: string, unit: string)
    requires |d| > 0 && forall k :: 0 <= k < |d| ==> IsDigit(d[k])
    ensures ConvertWeight(d + " " + unit) == Ok(DigitsValue(d) as int)
  {
    FirstPieceStops(d, unit, ' ');
    ParseDigits(d);
  }

  lemma WeightOf(n: nat, unit: string)
    ensures ConvertWeight(NatToString(n) + " " + unit) == Ok(n)
  {
    WeightOfDigits(NatToString(n), unit);
    DigitsValueOfNatToString(n);
  }

  lemma {:induction false} FirstPieceStops(d: string, rest: string, sep: char)
    requires forall k :: 0 <= k < |d| ==> d[k] != sep
    ensures FirstPiece(d + [sep] + rest, sep) == d
    decreases |d|
  {
    if d != [] {
      assert (d + [sep] + rest)[1..] == d[1..] + [sep] + rest;
      FirstPieceStops(d[1..], rest, sep);
      assert d == [d[0]] + d[1..];
    } else {
      assert (d + [sep] + rest)[0] == sep;
    }
  }

  // ---------------------------------------------------------------- the examples

  /** "--" is the sentinel for an unlisted salary: it reads as 0. */
  lemma SalarySentinel(s: string)
    requires s == "--"
    ensures NormalizeSalary(s).Ok? && NormalizeSalary(s).value == 0
  {
    SentinelDigits();
    ParseDigits("0");
    assert DigitsValue("0") == 0;
  }

  lemma SentinelDigits()
    ensures KeepDigits(ReplaceDashes("--", "$0")) == "0"
  {
    assert ReplaceDashes("--", "$0") == "$0";
    assert "$0"[1..] == "0";
    assert KeepDigits("0") == "0";
  }

  lemma SalaryExample(s: string)
    requires s == "$1,669,178"
    ensures NormalizeSalary(s).Ok? && NormalizeSalary(s).value == 1669178
  {
    SalaryExampleText();
    SalaryIsItsDigits(s);
    SalaryExampleDigits();
    DigitsValueOfNatToString(1669178);
    SalaryExampleSpelled();
  }

  lemma SalaryExampleText()
    ensures !HasDashPair("$1,669,178") && HasDigit("$1,669,178")
  {
    assert IsDigit("$1,669,178"[1]);
  }

  lemma SalaryExampleDigits()
    ensures KeepDigits("$1,669,178") == "1669178"
  {
    var a, b, c := "$1,", "669,", "178";
    assert "$1,669,178" == a + b + c;
    KeepDigitsAppend(a, b);
    KeepDigitsAppend(a + b, c);
    SalaryExamplePieces();
    assert "1" + "669" + "178" == "1669178";
  }

  lemma SalaryExamplePieces()
    ensures KeepDigits("$1,") == "1" && KeepDigits("669,") == "669" && KeepDigits("178") == "178"
  {
  }

  lemma SalaryExampleSpelled()
    ensures NatToString(1669178) == "1669178"
  {
    assert NatToString(1) == "1";
    assert NatToString(16) == "16";
    assert NatToString(166) == "166";
    assert NatToString(1669) == "1669";
    assert NatToString(16691) == "16691";
    assert NatToString(166917) == "166917";
  }

  /** "--" is the sentinel for an unlisted age: it reads as 0. */
  lemma AgeSentinel(s: string)
    requires s == "--"
    ensures NormalizeAge(s).Ok? && NormalizeAge(s).value == 0
  {
    assert ReplaceDashes("--", "0") == "0";
    ParseDigits("0");
    assert DigitsValue("0") == 0;
  }

  lemma HeightExampleTall(s: string)
    requires s == "6' 10\""
    ensures ConvertHeight(s).Ok? && ConvertHeight(s).value == 82
  {
    HeightOf(6, 10, []);
    HeightTallText();
  }

  lemma HeightTallText()
    ensures JoinSpaced([NatToString(6) + "'", NatToString(10) + "\""] + []) == "6' 10\""
  {
    assert NatToString(6) == "6";
    assert NatToString(10) == "10" by { assert NatToString(1) == "1"; }
    assert "6" + "'" == "6'" && "10" + "\"" == "10\"";
    var ts: seq<string> := ["6'", "10\""];
    assert ts + [] == ts;
    assert JoinSpaced(ts) == "6' 10\"";
  }

  lemma HeightExampleShort(s: string)
    requires s == "6' 2\""
    ensures ConvertHeight(s).Ok? && ConvertHeight(s).value == 74
  {
    HeightOf(6, 2, []);
    HeightShortText();
  }

  lemma HeightShortText()
    ensures JoinSpaced([NatToString(6) + "'", NatToString(2) + "\""] + []) == "6' 2\""
  {
    assert NatToString(6) == "6" && NatToString(2) == "2";
    assert "6" + "'" == "6'" && "2" + "\"" == "2\"";
    var ts: seq<string> := ["6'", "2\""];
    assert ts + [] == ts;
    assert JoinSpaced(ts) == "6' 2\"";
  }

  lemma WeightExample(s: string)
    requires s == "220 lbs"
    ensures ConvertWeight(s).Ok? && ConvertWeight(s).value == 220
  {
    WeightOf(220, "lbs");
    WeightExampleText();
  }

  lemma WeightExampleText()
    ensures NatToString(220) + " " + "lbs" == "220 lbs"
  {
    assert NatToString(22) == "22";
    assert NatToString(220) == "220";
  }
}
