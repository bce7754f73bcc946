/**
 * The `ExpHelper` of src/webapi/collections.rs: renders a list of `i32` ids
 * as the literal list of an SQL `IN (...)` clause, and wraps that list into the
 * multi-row SELECT and DELETE statements.
 */
module ExpHelper {
  import opened Base

  predicate IsDigit(c: char) {
    '0' <= c <= '9'
  }

  function DigitChar(d: nat): (c: char)
    requires d < 10
    ensures IsDigit(c)
  {
    ('0' as int + d) as char
  }

  /** The decimal digits of `n`, most significant first. */
  function NatToDecimal(n: nat): (s: string)
    ensures |s| > 0
    ensures forall i :: 0 <= i < |s| ==> IsDigit(s[i])
    ensures |s| > 1 ==> s[0] != '0'
    decreases n
  {
    if n < 10 then [DigitChar(n)] else NatToDecimal(n / 10) + [DigitChar(n % 10)]
  }

  /** `i32::to_string`: a minus sign for negative values, then the digits of the magnitude. */
  function IntToDecimal(n: int): (s: string)
    ensures |s| > 0 && IsDigit(s[|s| - 1])
    ensures (s[0] == '-') == (n < 0)
    ensures forall i :: 0 <= i < |s| ==> IsDigit(s[i]) || (i == 0 && s[i] == '-')
  {
    if n < 0 then "-" + NatToDecimal(-n) else NatToDecimal(n)
  }

  /** The comma-separated list of the decimal renderings of `ids`, in order. */
  function JoinIds(ids: seq<int>): string
  {
    if |ids| == 0 then ""
    else if |ids| == 1 then IntToDecimal(ids[0])
    else JoinIds(ids[..|ids| - 1]) + "," + IntToDecimal(ids[|ids| - 1])
  }

  /** `get_ids_as_exp`: appends each rendering to a growing buffer, with a comma before every one but the first. */
  method GetIdsAsExp(ids: seq<I32>) returns (result: string)
    ensures result == JoinIds(ids)
  {
    result := "";
    for i := 0 to |ids|
      invariant result == JoinIds(ids[..i])
      invariant |result| == 0 <==> i == 0
    {
      assert ids[..i + 1][..i] == ids[..i];
      if |result| != 0 {
        result := result + ",";
      }
      result := result + IntToDecimal(ids[i]);
    }
    assert ids[..|ids|] == ids;
  }

  const SelectVerb: string := "SELECT * FROM "
  const DeleteVerb: string := "DELETE FROM "
  const InClause: string := " WHERE id IN ("

  /** The statement template shared by `get_select_in_exp` and `get_delete_in_exp`. */
  function InStatement(verb: string, table: string, ids: seq<int>): string
  {
    verb + table + InClause + JoinIds(ids) + ")"
  }

  /** `get_select_in_exp`. */
  method SelectInExp(table: string, ids: seq<I32>) returns (sql: string)
    ensures sql == InStatement(SelectVerb, table, ids)
  {
    var list := GetIdsAsExp(ids);
    sql := SelectVerb + table + InClause + list + ")";
  }

  /** `get_delete_in_exp`. */
  method DeleteInExp(table: string, ids: seq<I32>) returns (sql: string)
    ensures sql == InStatement(DeleteVerb, table, ids)
  {
    var list := GetIdsAsExp(ids);
    sql := DeleteVerb + table + InClause + list + ")";
  }

  /** The number of occurrences of `c` in `s`. */
  function Occurrences(s: string, c: char): nat
  {
    if |s| == 0 then 0
    else Occurrences(s[..|s| - 1], c) + (if s[|s| - 1] == c then 1 else 0)
  }

  lemma {:induction false} OccurrencesConcat(a: string, b: string, c: char)
    ensures Occurrences(a + b, c) == Occurrences(a, c) + Occurrences(b, c)
    decreases |b|
  {
    if |b| > 0 {
      assert (a + b)[..|a + b| - 1] == a + b[..|b| - 1];
      OccurrencesConcat(a, b[..|b| - 1], c);
    } else {
      assert a + b == a;
    }
  }

  lemma {:induction false} OccurrencesAbsent(s: string, c: char)
    requires forall i :: 0 <= i < |s| ==> s[i] != c
    ensures Occurrences(s, c) == 0
    decreases |s|
  {
    if |s| > 0 {
      OccurrencesAbsent(s[..|s| - 1], c);
    }
  }

  /** A non-empty list renders with exactly one comma between neighbouring ids and none elsewhere. */
  lemma {:induction false} JoinIdsCommas(ids: seq<int>)
    requires |ids| > 0
    ensures Occurrences(JoinIds(ids), ',') == |ids| - 1
    decreases |ids|
  {
    OccurrencesAbsent(IntToDecimal(ids[|ids| - 1]), ',');
    if |ids| > 1 {
      var init := ids[..|ids| - 1];
      JoinIdsCommas(init);
      OccurrencesConcat(JoinIds(init), ",", ',');
      OccurrencesConcat(JoinIds(init) + ",", IntToDecimal(ids[|ids| - 1]), ',');
      assert Occurrences(",", ',') == 1 by {
        assert ","[..0] == "";
      }
    }
  }

  /** The list is empty exactly for no ids; otherwise it starts with a sign or a digit and ends with a digit, so it never starts or ends with a comma. */
  lemma {:induction false} JoinIdsEnds(ids: seq<int>)
    ensures (|JoinIds(ids)| == 0) == (|ids| == 0)
    ensures |ids| > 0 ==> (JoinIds(ids)[0] == '-' || IsDigit(JoinIds(ids)[0])) && IsDigit(JoinIds(ids)[|JoinIds(ids)| - 1])
    decreases |ids|
  {
    if |ids| > 1 {
      JoinIdsEnds(ids[..|ids| - 1]);
    }
  }
}
