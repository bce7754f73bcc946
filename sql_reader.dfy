/**
 * How the database reads the statements `ExpHelper` writes: the table name and
 * the literal id list of `<verb><table> WHERE id IN (<list>)`. The lemmas here
 * show that the database receives exactly the ids the collection asked for,
 * and that an empty list is not a statement at all.
 */
module SqlReader {
  import opened Base
  import opened ExpHelper

  /** The position of the last `c` in `s`, if any. */
  function LastIndexOf(s: string, c: char): (r: Option<nat>)
    ensures r.Some? ==> r.value < |s| && s[r.value] == c
    ensures r.Some? ==> forall j :: r.value < j < |s| ==> s[j] != c
    ensures r.None? ==> forall j :: 0 <= j < |s| ==> s[j] != c
  {
    if |s| == 0 then None
    else if s[|s| - 1] == c then Some(|s| - 1)
    else LastIndexOf(s[..|s| - 1], c)
  }

  /** The value of a non-empty run of decimal digits. */
  function DigitsValue(s: string): nat
    requires |s| > 0 && forall i :: 0 <= i < |s| ==> IsDigit(s[i])
  {
    assert IsDigit(s[|s| - 1]);
    var d: nat := s[|s| - 1] as int - '0' as int;
    if |s| == 1 then d else DigitsValue(s[..|s| - 1]) * 10 + d
  }

  function ReadNat(s: string): Option<nat>
  {
    if |s| > 0 && forall i :: 0 <= i < |s| ==> IsDigit(s[i]) then Some(DigitsValue(s)) else None
  }

  /** An integer literal: an optional minus sign and at least one digit. */
  function ReadInt(s: string): Option<int>
  {
    if |s| > 0 && s[0] == '-' then
      match ReadNat(s[1..])
      case Some(n) => Some(-(n as int))
      case None => None
    else
      match ReadNat(s)
      case Some(n) => Some(n)
      case None => None
  }

  /** A comma-separated list of one or more integer literals. */
  function ReadIds(s: string): Option<seq<int>>
    decreases |s|
  {
    match LastIndexOf(s, ',')
    case None =>
      (match ReadInt(s)
       case Some(n) => Some([n])
       case None => None)
    case Some(p) =>
      match (ReadIds(s[..p]), ReadInt(s[p + 1..]))
      case (Some(init), Some(n)) => Some(init + [n])
      case _ => None
  }

  /** The table and id list of `<verb><table> WHERE id IN (<list>)`, or None when `sql` has another shape. */
  function ReadInStatement(verb: string, sql: string): Option<(string, seq<int>)>
  {
    if |sql| == 0 || sql[|sql| - 1] != ')' then None
    else
      var body := sql[..|sql| - 1];
      match LastIndexOf(body, '(')
      case None => None
      case Some(p) =>
        var head := body[..p + 1];
        if |head| < |verb| + |InClause| || head[..|verb|] != verb || head[|head| - |InClause|..] != InClause then None
        else
          match ReadIds(body[p + 1..])
          case None => None
          case Some(ids) => Some((head[|verb|..|head| - |InClause|], ids))
  }

  lemma {:induction false} ReadNatRoundTrip(n: nat)
    ensures ReadNat(NatToDecimal(n)) == Some(n)
    decreases n
  {
    var s := NatToDecimal(n);
    if n >= 10 {
      ReadNatRoundTrip(n / 10);
      assert s[..|s| - 1] == NatToDecimal(n / 10);
    }
  }

  /** Reading back the rendering of an integer gives that integer. */
  lemma ReadIntRoundTrip(n: int)
    ensures ReadInt(IntToDecimal(n)) == Some(n)
  {
    if n < 0 {
      ReadNatRoundTrip(-n);
      assert IntToDecimal(n)[1..] == NatToDecimal(-n);
    } else {
      ReadNatRoundTrip(n);
    }
  }

  /** Reading back a rendered non-empty list gives the same ids in the same order. */
  lemma {:induction false} ReadIdsRoundTrip(ids: seq<int>)
    requires |ids| > 0
    ensures ReadIds(JoinIds(ids)) == Some(ids)
    decreases |ids|
  {
    var n := ids[|ids| - 1];
    var last := IntToDecimal(n);
    ReadIntRoundTrip(n);
    NoComma(n);
    if |ids| == 1 {
      ReadIdsSingle(last, n);
      assert ids == [n];
    } else {
      var init := ids[..|ids| - 1];
      assert init + [n] == ids;
      assert JoinIds(ids) == JoinIds(init) + "," + last;
      ReadIdsRoundTrip(init);
      ReadIdsStep(JoinIds(init), last, init, n);
    }
  }

  /** The rendering of an integer holds no comma. */
  lemma NoComma(n: int)
    ensures forall j :: 0 <= j < |IntToDecimal(n)| ==> IntToDecimal(n)[j] != ','
  {
  }

  /** A literal without a comma is read as a one-element list. */
  lemma ReadIdsSingle(last: string, n: int)
    requires forall j :: 0 <= j < |last| ==> last[j] != ','
    requires ReadInt(last) == Some(n)
    ensures ReadIds(last) == Some([n])
  {
    assert LastIndexOf(last, ',') == None;
  }

  /** A list is read by splitting off the literal after its last comma. */
  lemma ReadIdsStep(init: string, last: string, a: seq<int>, n: int)
    requires forall j :: 0 <= j < |last| ==> last[j] != ','
    requires ReadIds(init) == Some(a) && ReadInt(last) == Some(n)
    ensures ReadIds(init + "," + last) == Some(a + [n])
  {
    var prefix := init + ",";
    var s := prefix + last;
    assert s == init + "," + last;
    LastOccurrence(prefix, last, ',');
    assert s[..|prefix| - 1] == init;
    assert s[|prefix|..] == last;
  }

  /**
   * The database reads a built statement as the table and the ids it was built
   * from; a statement built from no ids (`IN ()`) is not readable.
   */
  lemma InStatementRoundTrip(verb: string, table: string, ids: seq<int>)
    ensures ReadInStatement(verb, InStatement(verb, table, ids)) == if ids == [] then None else Some((table, ids))
  {
    var list := JoinIds(ids);
    var head := verb + table + InClause;
    var sql := InStatement(verb, table, ids);
    assert sql == head + list + ")";
    assert sql[..|sql| - 1] == head + list;
    LastParen(head, ids);
    HeadParts(verb, table);
    assert (head + list)[..|head|] == head;
    assert (head + list)[|head|..] == list;
    if ids == [] {
      assert ReadIds("") == None;
    } else {
      ReadIdsRoundTrip(ids);
    }
  }

  /** When `head` ends in `c` and `tail` holds none, that `c` is the last one. */
  lemma LastOccurrence(head: string, tail: string, c: char)
    requires |head| > 0 && head[|head| - 1] == c
    requires forall j :: 0 <= j < |tail| ==> tail[j] != c
    ensures LastIndexOf(head + tail, c) == Some(|head| - 1)
  {
    var s := head + tail;
    assert s[|head| - 1] == c;
    assert forall j :: |head| <= j < |s| ==> s[j] == tail[j - |head|];
  }

  /** The opening parenthesis of the clause is the last one: the list holds none. */
  lemma LastParen(head: string, ids: seq<int>)
    requires |head| > 0 && head[|head| - 1] == '('
    ensures LastIndexOf(head + JoinIds(ids), '(') == Some(|head| - 1)
  {
    var list := JoinIds(ids);
    forall j | 0 <= j < |list|
      ensures list[j] != '('
    {
      JoinIdsNoParen(ids, j);
    }
    LastOccurrence(head, list, '(');
  }

  /** The statement head splits back into the verb, the table and the clause. */
  lemma HeadParts(verb: string, table: string)
    ensures var head := verb + table + InClause;
      && |head| >= |verb| + |InClause|
      && head[..|verb|] == verb
      && head[|head| - |InClause|..] == InClause
      && head[|verb|..|head| - |InClause|] == table
  {
  }

  /** A rendered list holds only signs, digits and commas. */
  lemma {:induction false} JoinIdsNoParen(ids: seq<int>, j: int)
    requires 0 <= j < |JoinIds(ids)|
    ensures JoinIds(ids)[j] == ',' || JoinIds(ids)[j] == '-' || IsDigit(JoinIds(ids)[j])
    decreases |ids|
  {
    if |ids| > 1 {
      var init := JoinIds(ids[..|ids| - 1]);
      if j < |init| {
        JoinIdsNoParen(ids[..|ids| - 1], j);
      }
    }
  }
}
