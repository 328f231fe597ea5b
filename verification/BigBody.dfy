/** The big-body export: JSON rows are streamed until a target size is reached,
    under an iteration cap that is computed independently. */
module BigBody {
  import opened Prelude
  import opened Decimal

  const MAX_BODY_KB: nat := 10_240

  /** The JSON text of one row; the value is 16 hexadecimal digits. */
  function Row(index: nat, value: string): string
  {
    "{\"index\":" + Digits(index) + ",\"value\":\"" + value + "\"}"
  }

  /** The first k rows, separated by commas. */
  function Rows(value: nat -> string, k: nat): string
  {
    if k == 0 then ""
    else Rows(value, k - 1) + (if k == 1 then "" else ",") + Row(k - 1, value(k - 1))
  }

  ghost predicate HexValues(value: nat -> string)
  {
    forall i: nat :: |value(i)| == 16
  }

  function Target(sizeKb: nat): nat
  {
    sizeKb * 1024
  }

  /** What row i adds, comma included: at least 38 bytes, 39 from the second
      row on, 40 from the eleventh on, and at most 44. */
  lemma RowBytes(value: nat -> string, i: nat)
    requires HexValues(value) && i < 1_000_000
    ensures var d := |Rows(value, i + 1)| - |Rows(value, i)|;
            && d == 37 + |Digits(i)| + (if i == 0 then 0 else 1)
            && 38 <= d <= 44 && (i >= 1 ==> d >= 39) && (i >= 10 ==> d >= 40)
  {
    assert Pow10(1) == 10 && Pow10(6) == 1_000_000;
    DigitCount(i, 1);
    DigitCount(i, 6);
  }

  /** Enough bytes to outrun the iteration cap. */
  lemma {:induction false} RowsLowerBound(value: nat -> string, k: nat)
    requires HexValues(value) && k <= 1_000_000
    ensures |Rows(value, k)| + 1 >= 40 * k - 10 && (k <= 10 ==> |Rows(value, k)| + 1 >= 39 * k)
  {
    if k > 0 {
      RowsLowerBound(value, k - 1);
      RowBytes(value, k - 1);
    }
  }

  lemma RowsNext(value: nat -> string, k: nat)
    ensures Rows(value, 0) == ""
    ensures Rows(value, k + 1) == (if k == 0 then "" else Rows(value, k) + ",") + Row(k, value(k))
  {}

  /** A row is a JSON object that names the index first and the value second. */
  lemma RowMeans(index: nat, value: string)
    requires index < 0x8000_0000_0000_0000
    ensures exists digits: string ::
              Atoi(digits) == Some(index) && Row(index, value) == "{\"index\":" + digits + ",\"value\":\"" + value + "\"}"
  {
    hide Digits, Atoi;
    AtoiItoa(index);
  }

  /** For every permitted size: as long as the client stays connected, the
      iteration cap never ends the loop first. The body is a complete array of
      the fewest rows that reach the target, between 1 and 44 bytes longer than
      it. A client that goes away gets the rows so far and no closing bracket. */
  method Stream(sizeKb: nat, value: nat -> string, connected: nat -> bool)
    returns (body: string, rows: nat, complete: bool)
    requires 1 <= sizeKb <= MAX_BODY_KB && HexValues(value)
    ensures complete ==>
              && body == "[" + Rows(value, rows) + "]"
              && rows >= 1 && 1 + |Rows(value, rows - 1)| < sizeKb * 1024 <= 1 + |Rows(value, rows)|
              && sizeKb * 1024 + 1 <= |body| <= sizeKb * 1024 + 44
    ensures !complete ==> !connected(rows) && body == "[" + Rows(value, rows) && |body| < sizeKb * 1024
  {
    hide Rows, Row;
    var target := Target(sizeKb);
    var maxIter := target / 40 + 64;
    var written := 1;
    body := "[";
    var first := true;
    rows := 0;
    RowsNext(value, 0);
    while rows < maxIter && written < target
      invariant 0 <= rows <= maxIter
      invariant body == "[" + Rows(value, rows) && written == |body| && (first <==> rows == 0)
      invariant rows > 0 ==> 1 + |Rows(value, rows - 1)| < target
    {
      if !connected(rows) {
        complete := false;
        return;
      }
      var row := Row(rows, value(rows));
      RowsNext(value, rows);
      ghost var before := Rows(value, rows);
      if !first {
        body := body + ",";
        written := written + 1;
        assert body == "[" + (before + ",");
      }
      body := body + row;
      written := written + |row|;
      first := false;
      rows := rows + 1;
      assert body == "[" + Rows(value, rows);
    }
    RowsLowerBound(value, rows);
    RowBytes(value, rows - 1);
    body := body + "]";
    complete := true;
  }
}
