/** The PostgreSQL-backed project repository (server/database.js). The
    `projects` table is a sequence of rows kept in descending id order (the
    order `ORDER BY id DESC` reads them in), and the `projects_id_seq`
    sequence is the value its next `nextval` hands out. Whether the database
    answers a call is the parameter `up`; a pool that was never created is
    `connected == false`. */
module Database {
  import opened Common

  const MinInt4: int := -0x8000_0000
  const MaxInt4: int := 0x7fff_ffff

  predicate InInt4(n: int)
  {
    MinInt4 <= n <= MaxInt4
  }

  /** A project object as the queries receive it: each property as the
      text the driver sends for it, `None` where it sends NULL (an
      undefined or null property). `id` is the number PostgreSQL reads from
      its text, `None` when there is none to read. */
  datatype Incoming = Incoming(
    id: Option<int>,
    title: Option<string>,
    description: Option<string>,
    year: Option<string>,
    category: Option<string>,
    image: Option<string>,
    video: Option<string>,
    kind: Option<string>)

  /** One row of the `projects` table (timestamps are not modelled). */
  datatype Row = Row(
    id: int,
    title: string,
    description: string,
    year: string,
    category: string,
    image: Option<string>,
    video: Option<string>,
    kind: string)

  /** The column values an INSERT or UPDATE sends, after defaulting; a NULL
      title is `None`. */
  datatype Values = Values(
    title: Option<string>,
    description: string,
    year: string,
    category: string,
    image: Option<string>,
    video: Option<string>,
    kind: string)

  /** `v || fallback` for a string-or-absent value. */
  function OrDefault(v: Option<string>, fallback: string): (r: string)
    ensures v.Some? && v.value != "" ==> r == v.value
    ensures v.None? || v.value == "" ==> r == fallback
  {
    if v.Some? && v.value != "" then v.value else fallback
  }

  /** `v || null`: an empty string is stored as NULL. */
  function OrNull(v: Option<string>): (r: Option<string>)
    ensures r.Some? <==> v.Some? && v.value != ""
    ensures r.Some? ==> r == v
  {
    if v.Some? && v.value != "" then v else None
  }

  /** The defaulting both INSERT statements and the UPDATE apply. */
  function Defaulted(p: Incoming): (v: Values)
    ensures v.title == p.title
    ensures v.description == (if p.description.Some? then p.description.value else "")
    ensures v.year == (if p.year.Some? then p.year.value else "")
    ensures v.category == (if p.category.Some? then p.category.value else "")
    ensures v.image.Some? ==> v.image.value != "" && v.image == p.image
    ensures v.video.Some? ==> v.video.value != "" && v.video == p.video
    ensures p.kind.Some? && p.kind.value != "" ==> v.kind == p.kind.value
    ensures p.kind.None? || p.kind.value == "" ==> v.kind == "image"
  {
    Values(p.title, OrDefault(p.description, ""), OrDefault(p.year, ""), OrDefault(p.category, ""),
           OrNull(p.image), OrNull(p.video), OrDefault(p.kind, "image"))
  }

  /** Storing a text in a VARCHAR(n) column: a longer text is an error,
      except that spaces past the n-th character are cut off silently. */
  function Column(s: string, n: nat): (r: Option<string>)
    ensures |s| <= n ==> r == Some(s)
    ensures r.Some? ==> r.value <= s && |r.value| <= n && forall i :: |r.value| <= i < |s| ==> s[i] == ' '
    ensures r.Some? && |s| > n ==> |r.value| == n
    ensures r.None? <==> exists i :: n <= i < |s| && s[i] != ' '
  {
    if |s| <= n then Some(s)
    else if forall i :: n <= i < |s| ==> s[i] == ' ' then Some(s[..n])
    else
      assert exists i :: n <= i < |s| && s[i] != ' ';
      None
  }

  /** A value that fits once its trailing spaces are cut is stored without
      them. */
  lemma {:induction false} PaddedValueTruncated(s: string, pad: string, n: nat)
    requires |s| == n && forall i :: 0 <= i < |pad| ==> pad[i] == ' '
    ensures Column(s + pad, n) == Some(s)
  {
    var t := s + pad;
    assert forall i :: n <= i < |t| ==> t[i] == pad[i - n];
    assert forall i :: n <= i < |t| ==> t[i] == ' ';
    assert t[..n] == s;
    var r := Column(t, n);
    assert r.Some?;
    if |pad| > 0 {
      assert |r.value| == n && r.value <= t;
      assert r.value == t[..n];
    } else {
      assert t == s;
    }
  }

  /** The VARCHAR widths of title, year, category and type. A statement's
      parameters are constants of its plan, so PostgreSQL applies these
      length coercions while planning, before the statement runs. */
  predicate LengthsFit(v: Values)
  {
    (v.title.Some? ==> Column(v.title.value, 255).Some?) && Column(v.year, 50).Some?
    && Column(v.category, 100).Some? && Column(v.kind, 20).Some?
  }

  /** All the column constraints: the widths and `title` NOT NULL, which is
      checked on the row being written. */
  predicate Fits(v: Values)
  {
    LengthsFit(v) && v.title.Some?
  }

  /** The row the values are stored as. */
  function MakeRow(id: int, v: Values): (row: Row)
    requires Fits(v)
    ensures row.id == id && row.description == v.description && row.image == v.image && row.video == v.video
  {
    Row(id, Column(v.title.value, 255).value, v.description, Column(v.year, 50).value,
        Column(v.category, 100).value, v.image, v.video, Column(v.kind, 20).value)
  }

  /** Each VARCHAR value of a stored row is a prefix of the value sent,
      within its column width, and the value itself when that fits. */
  lemma MakeRowColumns(id: int, v: Values)
    requires Fits(v)
    ensures var row := MakeRow(id, v);
      && row.title <= v.title.value && |row.title| <= 255
      && row.year <= v.year && |row.year| <= 50
      && row.category <= v.category && |row.category| <= 100
      && row.kind <= v.kind && |row.kind| <= 20
    ensures |v.title.value| <= 255 && |v.year| <= 50 && |v.category| <= 100 && |v.kind| <= 20 ==>
      MakeRow(id, v) == Row(id, v.title.value, v.description, v.year, v.category, v.image, v.video, v.kind)
  {
  }

  // ---------------------------------------------------------------------------
  // Reading an `integer` from text
  // ---------------------------------------------------------------------------

  /** The white space PostgreSQL's integer input skips on either side. */
  predicate PgSpace(c: char)
  {
    c == ' ' || c == '\t' || c == '\n' || c == '\r' || c == '\U{000B}' || c == '\U{000C}'
  }

  function DropLeadingPgSpace(s: string): (r: string)
    ensures |r| <= |s| && r == s[|s| - |r|..]
    ensures forall i :: 0 <= i < |s| - |r| ==> PgSpace(s[i])
    ensures r == [] || !PgSpace(r[0])
  {
    if s != [] && PgSpace(s[0]) then DropLeadingPgSpace(s[1..]) else s
  }

  function DropTrailingPgSpace(s: string): (r: string)
    ensures |r| <= |s| && r == s[..|r|]
    ensures forall i :: |r| <= i < |s| ==> PgSpace(s[i])
    ensures r == [] || !PgSpace(r[|r| - 1])
  {
    if s != [] && PgSpace(s[|s| - 1]) then DropTrailingPgSpace(s[..|s| - 1]) else s
  }

  predicate AllDigits(s: string)
  {
    forall i :: 0 <= i < |s| ==> IsDigit(s[i])
  }

  /** An optional sign followed by at least one decimal digit. */
  function SignedDigits(t: string): Option<int>
  {
    if t == [] then None
    else
      var digits := if t[0] == '-' || t[0] == '+' then t[1..] else t;
      if digits == [] || !AllDigits(digits) then None
      else if t[0] == '-' then Some(-(DigitsValue(digits) as int))
      else Some(DigitsValue(digits))
  }

  /** The number PostgreSQL reads from the text of an `integer` parameter:
      optional white space, an optional sign, at least one decimal digit,
      optional white space. `None` is the "invalid input syntax" error. */
  function IntegerInput(s: string): Option<int>
  {
    SignedDigits(DropTrailingPgSpace(DropLeadingPgSpace(s)))
  }

  /** A text that neither starts nor ends with white space is read as it
      is. */
  lemma Unpadded(s: string)
    requires s != [] && !PgSpace(s[0]) && !PgSpace(s[|s| - 1])
    ensures DropTrailingPgSpace(DropLeadingPgSpace(s)) == s
  {
  }

  /** The text of a number has no white space to skip. */
  lemma NumberTextUnpadded(n: int)
    ensures DropTrailingPgSpace(DropLeadingPgSpace(IntToString(n))) == IntToString(n)
  {
    var s := IntToString(n);
    var digits := NatToString(if n < 0 then -n else n);
    assert s[0] == '-' || IsDigit(s[0]);
    assert IsDigit(s[|s| - 1]) by {
      if n < 0 { assert s[|s| - 1] == digits[|digits| - 1]; }
    }
    Unpadded(s);
  }

  /** The text of a number reads back as that number. */
  lemma IntegerInputOfNumber(n: int)
    ensures IntegerInput(IntToString(n)) == Some(n)
  {
    NumberTextUnpadded(n);
    var s := IntToString(n);
    if n < 0 {
      NatToStringValue(-n);
      assert s[1..] == NatToString(-n);
      assert s[0] == '-';
    } else {
      NatToStringValue(n);
      assert s[0] != '-' && s[0] != '+';
    }
  }

  /** Leading white space in front of a text that starts otherwise is
      skipped, and only that. */
  lemma DropLeadingPad(pad: string, x: string)
    requires forall i :: 0 <= i < |pad| ==> PgSpace(pad[i])
    requires x != [] && !PgSpace(x[0])
    ensures DropLeadingPgSpace(pad + x) == x
  {
    var s := pad + x;
    var r := DropLeadingPgSpace(s);
    assert |s| - |r| <= |pad| by {
      assert !PgSpace(s[|pad|]);
    }
    assert |s| - |r| >= |pad| by {
      if r != [] {
        assert !PgSpace(s[|s| - |r|]);
      }
    }
  }

  /** Trailing white space after a text that ends otherwise is skipped, and
      only that. */
  lemma DropTrailingPad(x: string, pad: string)
    requires forall i :: 0 <= i < |pad| ==> PgSpace(pad[i])
    requires x != [] && !PgSpace(x[|x| - 1])
    ensures DropTrailingPgSpace(x + pad) == x
  {
    var s := x + pad;
    var r := DropTrailingPgSpace(s);
    assert |r| >= |x| by {
      assert !PgSpace(s[|x| - 1]);
    }
    assert |r| <= |x| by {
      if r != [] {
        assert !PgSpace(s[|r| - 1]);
      }
    }
  }

  /** Surrounding white space and a '+' sign are accepted: " +7\n" reads
      as 7. */
  lemma IntegerInputPadded(before: string, digits: string, after: string)
    requires forall i :: 0 <= i < |before| ==> PgSpace(before[i])
    requires forall i :: 0 <= i < |after| ==> PgSpace(after[i])
    requires digits != [] && AllDigits(digits)
    ensures IntegerInput(before + "+" + digits + after) == Some(DigitsValue(digits))
  {
    var signed := "+" + digits;
    var s := before + "+" + digits + after;
    assert s == before + (signed + after);
    assert !PgSpace(digits[|digits| - 1]);
    DropLeadingPad(before, signed + after);
    DropTrailingPad(signed, after);
    PlusDigits(digits);
  }

  /** A '+' sign in front of digits is read as no sign. */
  lemma PlusDigits(digits: string)
    requires digits != [] && AllDigits(digits)
    ensures SignedDigits("+" + digits) == Some(DigitsValue(digits))
  {
    assert ("+" + digits)[1..] == digits;
  }

  /** A text between two digits that holds anything but digits, such as
      the fraction "7.5", is not an integer. */
  lemma IntegerInputRejects(s: string, k: nat)
    requires 0 < k < |s| - 1 && IsDigit(s[0]) && IsDigit(s[|s| - 1]) && !IsDigit(s[k])
    ensures IntegerInput(s) == None
  {
    Unpadded(s);
    assert !AllDigits(s);
    assert SignedDigits(s) == None;
  }

  /** An element of a saved batch that the explicit-id INSERT accepts on
      its own: a present id within the `integer` range and fitting
      columns. */
  predicate Admissible(p: Incoming)
  {
    p.id.Some? && InInt4(p.id.value) && Fits(Defaulted(p))
  }

  function RowOf(p: Incoming): Row
    requires Admissible(p)
  {
    MakeRow(p.id.value, Defaulted(p))
  }

  // ---------------------------------------------------------------------------
  // The table
  // ---------------------------------------------------------------------------

  predicate Descending(rows: seq<Row>)
  {
    forall i, j :: 0 <= i < j < |rows| ==> rows[i].id > rows[j].id
  }

  predicate Holds(rows: seq<Row>, id: int)
  {
    exists r :: r in rows && r.id == id
  }

  /** A row with a new primary key, placed at its place in id order. */
  function InsertRow(rows: seq<Row>, row: Row): (r: seq<Row>)
    requires Descending(rows) && !Holds(rows, row.id)
    ensures Descending(r)
    ensures multiset(r) == multiset(rows) + multiset{row}
    ensures forall x :: x in r <==> x in rows || x == row
  {
    if rows == [] || rows[0].id < row.id then
      DescendingCons(row, rows);
      [row] + rows
    else
      assert rows[0] in rows;
      var rest := InsertRow(rows[1..], row);
      assert rows == [rows[0]] + rows[1..];
      assert rest[0] in rest;
      assert rest[0].id < rows[0].id by {
        DescendingHead(rows);
      }
      DescendingCons(rows[0], rest);
      [rows[0]] + rest
  }

  /** The ids after the first of a descending list are below it. */
  lemma DescendingHead(rows: seq<Row>)
    requires Descending(rows) && rows != []
    ensures forall y :: y in rows[1..] ==> y.id < rows[0].id
  {
    forall y | y in rows[1..]
      ensures y.id < rows[0].id
    {
      var k :| 0 <= k < |rows[1..]| && rows[1..][k] == y;
      assert y == rows[k + 1];
    }
  }

  /** A row above the first of a descending list can go in front of it. */
  lemma DescendingCons(x: Row, rest: seq<Row>)
    requires Descending(rest) && (rest == [] || x.id > rest[0].id)
    ensures Descending([x] + rest)
  {
    var r := [x] + rest;
    forall i, j | 0 <= i < j < |r|
      ensures r[i].id > r[j].id
    {
      assert r[j] == rest[j - 1];
      if i > 0 {
        assert r[i] == rest[i - 1];
      } else if j > 1 {
        assert rest[0].id > rest[j - 1].id;
      }
    }
  }

  /** The rows with `id` left out; the others keep their order. */
  function Without(rows: seq<Row>, id: int): (r: seq<Row>)
    ensures forall x :: x in r <==> x in rows && x.id != id
    ensures !Holds(r, id)
    ensures Descending(rows) ==> Descending(r)
    ensures !Holds(rows, id) ==> r == rows
  {
    if rows == [] then []
    else if rows[0].id == id then Without(rows[1..], id)
    else [rows[0]] + Without(rows[1..], id)
  }

  /** Every row with `id` takes the new values; the others are untouched. */
  function Replaced(rows: seq<Row>, id: int, v: Values): (r: seq<Row>)
    requires Fits(v)
    ensures |r| == |rows|
    ensures forall i :: 0 <= i < |rows| ==> r[i].id == rows[i].id
    ensures forall i :: 0 <= i < |rows| && rows[i].id != id ==> r[i] == rows[i]
    ensures forall i :: 0 <= i < |rows| && rows[i].id == id ==> r[i] == MakeRow(id, v)
    ensures Descending(rows) ==> Descending(r)
  {
    seq(|rows|, i requires 0 <= i < |rows| => if rows[i].id == id then MakeRow(id, v) else rows[i])
  }

  // ---------------------------------------------------------------------------
  // The batch a replace-all save inserts
  // ---------------------------------------------------------------------------

  /** The table after inserting `ps` in order into an empty table, or None
      when one of the INSERTs violates a constraint (a NULL or duplicate
      primary key, an id out of range, a NULL title, an over-long value). */
  function InsertAll(ps: seq<Incoming>): (r: Option<seq<Row>>)
    ensures r.Some? ==> Descending(r.value)
    decreases |ps|
  {
    if ps == [] then Some([])
    else
      match InsertAll(ps[..|ps| - 1])
      case None => None
      case Some(t) =>
        var p := ps[|ps| - 1];
        if Admissible(p) && !Holds(t, p.id.value) then Some(InsertRow(t, RowOf(p))) else None
  }

  predicate AllAdmissible(ps: seq<Incoming>)
  {
    forall i :: 0 <= i < |ps| ==> Admissible(ps[i])
  }

  predicate DistinctIds(ps: seq<Incoming>)
  {
    forall i, j :: 0 <= i < j < |ps| ==> ps[i].id != ps[j].id
  }

  function RowsOf(ps: seq<Incoming>): (r: seq<Row>)
    requires AllAdmissible(ps)
    ensures |r| == |ps|
    ensures forall i :: 0 <= i < |ps| ==> r[i] == RowOf(ps[i])
  {
    seq(|ps|, i requires 0 <= i < |ps| => RowOf(ps[i]))
  }

  /** A batch that goes in leaves one row per element and nothing else. */
  lemma {:induction false} InsertAllContents(ps: seq<Incoming>)
    requires InsertAll(ps).Some?
    ensures AllAdmissible(ps)
    ensures multiset(InsertAll(ps).value) == multiset(RowsOf(ps))
    decreases |ps|
  {
    if ps != [] {
      var init, p := ps[..|ps| - 1], ps[|ps| - 1];
      assert InsertAll(init).Some?;
      InsertAllContents(init);
      assert Admissible(p);
      AdmissibleSnoc(ps);
      var t := InsertAll(init).value;
      assert InsertAll(ps).value == InsertRow(t, RowOf(p));
      RowsOfSnoc(ps);
    }
  }

  lemma AdmissibleSnoc(ps: seq<Incoming>)
    requires |ps| > 0
    ensures AllAdmissible(ps) <==> AllAdmissible(ps[..|ps| - 1]) && Admissible(ps[|ps| - 1])
  {
    var init := ps[..|ps| - 1];
    if AllAdmissible(init) && Admissible(ps[|ps| - 1]) {
      forall i | 0 <= i < |ps|
        ensures Admissible(ps[i])
      {
        if i < |init| {
          assert ps[i] == init[i];
        }
      }
    }
  }

  lemma RowsOfSnoc(ps: seq<Incoming>)
    requires |ps| > 0 && AllAdmissible(ps)
    ensures RowsOf(ps) == RowsOf(ps[..|ps| - 1]) + [RowOf(ps[|ps| - 1])]
  {
  }

  /** In a table holding one row per element of `init`, a row has `id`
      exactly when an element of `init` does. */
  lemma HoldsIffEarlier(init: seq<Incoming>, t: seq<Row>, id: int)
    requires AllAdmissible(init) && multiset(t) == multiset(RowsOf(init))
    ensures Holds(t, id) <==> exists i :: 0 <= i < |init| && init[i].id == Some(id)
  {
    if Holds(t, id) {
      var x :| x in t && x.id == id;
      assert x in multiset(RowsOf(init));
      var i :| 0 <= i < |init| && RowsOf(init)[i] == x;
      assert init[i].id == Some(id);
    }
    if exists i :: 0 <= i < |init| && init[i].id == Some(id) {
      var i :| 0 <= i < |init| && init[i].id == Some(id);
      assert RowsOf(init)[i] in multiset(t);
    }
  }

  /** The batch goes in exactly when every element is admissible and no two
      share an id. */
  lemma {:induction false} InsertAllSucceeds(ps: seq<Incoming>)
    ensures InsertAll(ps).Some? <==> AllAdmissible(ps) && DistinctIds(ps)
    decreases |ps|
  {
    if ps != [] {
      var init, p := ps[..|ps| - 1], ps[|ps| - 1];
      assert ps == init + [p];
      InsertAllSucceeds(init);
      AdmissibleSnoc(ps);
      assert DistinctIds(ps) <==> DistinctIds(init) && forall i :: 0 <= i < |init| ==> init[i].id != p.id by {
        if DistinctIds(init) && forall i :: 0 <= i < |init| ==> init[i].id != p.id {
          forall i, j | 0 <= i < j < |ps|
            ensures ps[i].id != ps[j].id
          {
            assert ps[i] == init[i];
            if j < |init| {
              assert ps[j] == init[j];
            }
          }
        }
      }
      if InsertAll(init).Some? {
        InsertAllContents(init);
        if Admissible(p) {
          HoldsIffEarlier(init, InsertAll(init).value, p.id.value);
        }
      }
    }
  }

  /** One more INSERT of a batch. */
  lemma InsertAllSnoc(ps: seq<Incoming>, i: nat, t: seq<Row>)
    requires i < |ps| && InsertAll(ps[..i]) == Some(t)
    ensures InsertAll(ps[..i + 1])
            == if Admissible(ps[i]) && !Holds(t, ps[i].id.value) then Some(InsertRow(t, RowOf(ps[i]))) else None
  {
    assert ps[..i + 1][..i] == ps[..i];
  }

  /** After a non-empty batch goes in, the sequence can be set exactly when
      its largest id is at least 1, and every row's id is at most that
      largest id. */
  lemma SetvalBound(ps: seq<Incoming>)
    requires |ps| > 0 && InsertAll(ps).Some?
    ensures AllAdmissible(ps)
    ensures Committable(ps) <==> MaxIdOf(ps) >= 1
    ensures forall r :: r in InsertAll(ps).value ==> r.id <= MaxIdOf(ps)
    ensures MaxIdOf(ps) <= MaxInt4
  {
    InsertAllContents(ps);
    RowsBelowMax(ps, InsertAll(ps).value);
    var m := MaxIdOf(ps);
    var k :| 0 <= k < |ps| && ps[k].id.value == m;
    assert Admissible(ps[k]);
  }

  /** Every row a batch leaves has an id at most the batch's largest. */
  lemma RowsBelowMax(ps: seq<Incoming>, t: seq<Row>)
    requires |ps| > 0 && AllAdmissible(ps)
    requires multiset(t) == multiset(RowsOf(ps))
    ensures forall r :: r in t ==> r.id <= MaxIdOf(ps)
  {
    RowIdsBelowMax(ps);
    SameMembers(t, RowsOf(ps));
  }

  lemma RowIdsBelowMax(ps: seq<Incoming>)
    requires |ps| > 0 && AllAdmissible(ps)
    ensures forall r :: r in RowsOf(ps) ==> r.id <= MaxIdOf(ps)
  {
    var m := MaxIdOf(ps);
    var rows := RowsOf(ps);
    forall i | 0 <= i < |rows|
      ensures rows[i].id <= m
    {
      assert rows[i] == RowOf(ps[i]);
    }
  }

  /** A failure part-way through a batch is a failure of the whole batch. */
  lemma {:induction false} InsertAllFailurePersists(ps: seq<Incoming>, n: nat)
    requires n <= |ps| && InsertAll(ps[..n]).None?
    ensures InsertAll(ps).None?
    decreases |ps| - n
  {
    if n < |ps| {
      assert ps[..n + 1][..n] == ps[..n];
      InsertAllFailurePersists(ps, n + 1);
    } else {
      assert ps[..n] == ps;
    }
  }

  /** `Math.max(...ids)` over a batch whose ids are all present. */
  function MaxIdOf(ps: seq<Incoming>): (m: int)
    requires |ps| > 0 && forall i :: 0 <= i < |ps| ==> ps[i].id.Some?
    ensures forall i :: 0 <= i < |ps| ==> ps[i].id.value <= m
    ensures exists i :: 0 <= i < |ps| && ps[i].id.value == m
  {
    if |ps| == 1 then ps[0].id.value
    else
      var m := MaxIdOf(ps[1..]);
      assert forall i :: 1 <= i < |ps| ==> ps[i] == ps[1..][i - 1];
      if ps[0].id.value > m then ps[0].id.value else m
  }

  /** A replace-all save commits: the batch inserts, and the sequence can
      be set to its largest id (`setval` refuses values below 1). */
  predicate Committable(ps: seq<Incoming>)
  {
    InsertAll(ps).Some? && (|ps| > 0 ==> exists i :: 0 <= i < |ps| && ps[i].id.Some? && ps[i].id.value >= 1)
  }

  datatype SaveReply = Resolved(saved: bool) | Rejected

  class Repository {
    /** `pool != null` */
    var connected: bool
    /** The `projects` table in id order, largest first. */
    var rows: seq<Row>
    /** The value the next `nextval('projects_id_seq')` returns. */
    var nextId: int

    ghost predicate Valid()
      reads this
    {
      Descending(rows) && 1 <= nextId <= MaxInt4 + 1
    }

    /** `initDatabase` followed by `createProjectsTable` on a new database:
        a pool exists exactly when one of the two connection strings is
        non-empty, and the table starts empty with its sequence at 1. */
    constructor (databaseUrl: Option<string>, netlifyDatabaseUrl: Option<string>)
      ensures Valid()
      ensures connected <==> ((databaseUrl.Some? && databaseUrl.value != "")
                              || (netlifyDatabaseUrl.Some? && netlifyDatabaseUrl.value != ""))
      ensures rows == [] && nextId == 1
    {
      connected := OrDefault(databaseUrl, OrDefault(netlifyDatabaseUrl, "")) != "";
      rows := [];
      nextId := 1;
    }

    /** `getAllProjects`: the rows, largest id first; [] without a pool or
        when the query fails. */
    method GetAll(up: bool) returns (r: seq<Row>)
      requires Valid()
      ensures Descending(r)
      ensures connected && up ==> r == rows
      ensures !(connected && up) ==> r == []
    {
      if !connected || !up {
        return [];
      }
      r := rows;
    }

    /** `saveAllProjects`: in one transaction, delete every row, insert the
        batch with its own ids and, for a non-empty batch, set the sequence
        to the largest id. Any failing statement rolls the table back. When
        the pool cannot hand out a client the call rejects. */
    method SaveAll(ps: seq<Incoming>, up: bool) returns (reply: SaveReply)
      requires Valid()
      modifies this
      ensures Valid() && connected == old(connected)
      ensures !connected ==> reply == Resolved(false)
      ensures connected && !up ==> reply == Rejected
      ensures reply == Resolved(true) <==> connected && up && Committable(ps)
      ensures reply == Resolved(true) ==> rows == InsertAll(ps).value
      ensures reply == Resolved(true) && |ps| == 0 ==> nextId == old(nextId)
      ensures reply == Resolved(true) && |ps| > 0 ==>
        AllAdmissible(ps) && nextId == MaxIdOf(ps) + 1 && forall r :: r in rows ==> r.id < nextId
      ensures reply != Resolved(true) ==> rows == old(rows) && nextId == old(nextId)
    {
      if !connected {
        return Resolved(false);
      }
      if !up {
        return Rejected;
      }
      var snapshot := rows;
      var inserted := ReplaceRows(ps);
      if !inserted {
        rows := snapshot;
        return Resolved(false);
      }
      if |ps| > 0 {
        SetvalBound(ps);
        var maxId := MaxIdOf(ps);
        if maxId < 1 {
          rows := snapshot;
          return Resolved(false);
        }
        nextId := maxId + 1;
      }
      return Resolved(true);
    }

    /** The DELETE and the INSERT loop of `saveAllProjects`: the table is
        emptied and the batch goes in row by row; the first INSERT that
        fails stops the loop. */
    method ReplaceRows(ps: seq<Incoming>) returns (inserted: bool)
      requires Valid()
      modifies this
      ensures Valid() && connected == old(connected) && nextId == old(nextId)
      ensures inserted <==> InsertAll(ps).Some?
      ensures inserted ==> rows == InsertAll(ps).value
    {
      rows := [];
      var i := 0;
      while i < |ps|
        invariant 0 <= i <= |ps|
        invariant nextId == old(nextId) && connected == old(connected)
        invariant InsertAll(ps[..i]) == Some(rows)
      {
        var p := ps[i];
        InsertAllSnoc(ps, i, rows);
        if !Admissible(p) || Holds(rows, p.id.value) {
          InsertAllFailurePersists(ps, i + 1);
          return false;
        }
        rows := InsertRow(rows, RowOf(p));
        i := i + 1;
      }
      assert ps[..i] == ps;
      return true;
    }

    /** `addProject`: one INSERT that takes its id from `nextval`. A value
        too long for its column fails the statement while it is planned,
        before `nextval` runs. Otherwise the sequence value is spent even
        when the INSERT then fails, and `nextval` itself fails once the
        sequence is exhausted. */
    method Add(p: Incoming, up: bool) returns (r: Option<Row>)
      requires Valid()
      modifies this
      ensures Valid() && connected == old(connected)
      ensures r.Some? <==> (connected && up && old(nextId) <= MaxInt4 && Fits(Defaulted(p))
                            && !Holds(old(rows), old(nextId)))
      ensures r.Some? ==> r.value == MakeRow(old(nextId), Defaulted(p)) && rows == InsertRow(old(rows), r.value)
      ensures r.None? ==> rows == old(rows)
      ensures nextId == if connected && up && LengthsFit(Defaulted(p)) && old(nextId) <= MaxInt4
                        then old(nextId) + 1 else old(nextId)
    {
      var v := Defaulted(p);
      if !connected || !up || !LengthsFit(v) || nextId > MaxInt4 {
        return None;
      }
      var id := nextId;
      nextId := nextId + 1;
      if v.title.None? || Holds(rows, id) {
        return None;
      }
      var row := MakeRow(id, v);
      rows := InsertRow(rows, row);
      r := Some(row);
    }

    /** `updateProject`: an UPDATE by id. An id outside `integer` or a value
        too long for its column fails the statement before any row is
        looked at; otherwise it answers true when no row has the id, and
        `title` NOT NULL is only checked against a row it rewrites. */
    method Update(id: int, p: Incoming, up: bool) returns (ok: bool)
      requires Valid()
      modifies this
      ensures Valid() && connected == old(connected) && nextId == old(nextId)
      ensures ok <==> connected && up && InInt4(id) && LengthsFit(Defaulted(p))
                      && (Holds(old(rows), id) ==> Defaulted(p).title.Some?)
      ensures ok && Holds(old(rows), id) ==> rows == Replaced(old(rows), id, Defaulted(p))
      ensures !(ok && Holds(old(rows), id)) ==> rows == old(rows)
    {
      var v := Defaulted(p);
      if !connected || !up || !InInt4(id) || !LengthsFit(v) {
        return false;
      }
      if Holds(rows, id) {
        if v.title.None? {
          return false;
        }
        rows := Replaced(rows, id, v);
      }
      return true;
    }

    /** `deleteProject`: a DELETE by id, true even when no row has it. */
    method Delete(id: int, up: bool) returns (ok: bool)
      requires Valid()
      modifies this
      ensures Valid() && connected == old(connected) && nextId == old(nextId)
      ensures ok <==> connected && up && InInt4(id)
      ensures ok ==> rows == Without(old(rows), id)
      ensures !ok ==> rows == old(rows)
    {
      if !connected || !up || !InInt4(id) {
        return false;
      }
      rows := Without(rows, id);
      return true;
    }
  }

  /** A successful non-empty save followed by a single insert: the insert
      gets the batch's largest id plus one, unless that is past the
      sequence's maximum. */
  method SaveThenAdd(repo: Repository, ps: seq<Incoming>, p: Incoming) returns (saved: SaveReply, added: Option<Row>)
    requires repo.Valid() && |ps| > 0
    modifies repo
    ensures saved == Resolved(true) ==> AllAdmissible(ps)
    ensures saved == Resolved(true) && Fits(Defaulted(p)) && AllAdmissible(ps) && MaxIdOf(ps) < MaxInt4 ==>
      added == Some(MakeRow(MaxIdOf(ps) + 1, Defaulted(p)))
  {
    saved := repo.SaveAll(ps, true);
    if saved == Resolved(true) {
      assert !Holds(repo.rows, repo.nextId);
    }
    added := repo.Add(p, true);
  }
}
