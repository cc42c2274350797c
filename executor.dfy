/** The two decisions `execute_query` makes about a statement and its result
    set: whether the statement is a read, and which rows of a read it keeps. */
module Executor {
  import opened Text

  /** The number of rows a read keeps. */
  const MaxRows: nat := 5

  /** The statement is a read when its stripped, upper-cased text starts with
      "SELECT": when its first six characters after the leading whitespace
      each upper-case to the letter of "SELECT" at the same place. */
  predicate IsSelect(sql: string): (read: bool)
    ensures read <==> (|Strip(sql)| >= 6
      && forall k :: 0 <= k < 6 ==> UpperChar(Strip(sql)[k]) == "SELECT"[k])
  {
    StartsWith(Upper(Strip(sql)), "SELECT")
  }

  /** A read keeps the last `MaxRows` rows, in their order. */
  function LastRows<Row>(rows: seq<Row>): (kept: seq<Row>)
    ensures |kept| == if |rows| > MaxRows then MaxRows else |rows|
    ensures kept == rows[|rows| - |kept|..]
  {
    if |rows| > MaxRows then rows[|rows| - MaxRows..] else rows
  }

  /** Upper-casing works letter by letter, so the first six letters decide. */
  lemma UpperPrefix(s: string, n: nat)
    requires n <= |s|
    ensures Upper(s)[..n] == Upper(s[..n])
  {
  }

  /** A statement is a read exactly when its stripped text has at least six
      letters and those six, upper-cased, spell "SELECT". */
  lemma IsSelectIff(sql: string)
    ensures IsSelect(sql) <==>
      |Strip(sql)| >= 6 && Upper(Strip(sql)[..6]) == "SELECT"
  {
    if |Strip(sql)| >= 6 {
      UpperPrefix(Strip(sql), 6);
    }
  }

  /** Leading whitespace and any letter case of "select" still make a read,
      whatever follows. */
  lemma {:induction false} SelectInAnyCase(ws: string, keyword: string, rest: string)
    requires AllSpace(ws)
    requires |keyword| == 6 && Upper(keyword) == "SELECT"
    ensures IsSelect(ws + keyword + rest)
  {
    var body := keyword + rest;
    StripPadded(ws, body, []);
    assert ws + keyword + rest == ws + body + [];
    var i, j := StripSpan(body);
    assert Upper(keyword)[0] == UpperChar(keyword[0]) == 'S';
    assert Upper(keyword)[5] == UpperChar(keyword[5]) == 'T';
    assert body[0] == keyword[0] && body[5] == keyword[5];
    assert !IsSpace(body[0]) && !IsSpace(body[5]);
    assert i == 0 && j >= 6;
    assert Strip(body)[..6] == keyword;
    IsSelectIff(ws + keyword + rest);
  }

  /** Only a statement beginning with the six letters counts: anything else
      first, such as a comment, an opening parenthesis or a WITH clause,
      makes it a write. */
  lemma NotSelectWhenOtherFirst(sql: string)
    requires |Strip(sql)| > 0 && UpperChar(Strip(sql)[0]) != 'S'
    ensures !IsSelect(sql)
  {
    IsSelectIff(sql);
    if |Strip(sql)| >= 6 {
      assert Upper(Strip(sql)[..6])[0] == UpperChar(Strip(sql)[0]);
    }
  }
}
