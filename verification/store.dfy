/** The `notes` table as the route handlers use it
    (secure-notes-server/server.js): rows keyed by a `SERIAL` id, the
    parameterised queries as pure transitions. */
module NoteStore {
  import opened Wrappers
  import opened Json

  /** A row of `notes`. A title or content the request left out is stored
      as NULL (`JNull`); timestamps are the text `JSON.stringify` gives. */
  datatype Row = Row(id: int, userId: int, title: Json, content: Json, createdAt: string, updatedAt: string)

  /** The rows by id, and the next value of the id sequence. */
  datatype Store = Store(rows: map<int, Row>, nextId: int)

  /** Ids come from the sequence (so they are positive and below its next
      value) and every row sits under its own id. */
  ghost predicate Valid(s: Store)
  {
    && 1 <= s.nextId
    && forall id | id in s.rows :: s.rows[id].id == id && 1 <= id < s.nextId
  }

  /** An empty table with a fresh sequence is valid. */
  lemma EmptyValid()
    ensures Valid(Store(map[], 1))
  {
  }

  /** `INSERT INTO notes (user_id, title, content) ... RETURNING *`: the
      new row takes the next sequence value and the current time. */
  function Insert(s: Store, userId: int, title: Json, content: Json, now: string): (r: (Row, Store))
    ensures r.0 == Row(s.nextId, userId, title, content, now, now)
    ensures r.1.rows.Keys == s.rows.Keys + {r.0.id}
    ensures r.1.rows[r.0.id] == r.0
    ensures Valid(s) ==> r.0.id !in s.rows && Valid(r.1)
    ensures forall id | id in s.rows && id != r.0.id :: r.1.rows[id] == s.rows[id]
  {
    var row := Row(s.nextId, userId, title, content, now, now);
    var s' := Store(s.rows[row.id := row], s.nextId + 1);
    assert Valid(s) ==> Valid(s') by {
      if Valid(s) {
        forall id | id in s'.rows
          ensures s'.rows[id].id == id && 1 <= id < s'.nextId
        {
          if id != row.id {
            assert s'.rows[id] == s.rows[id];
          }
        }
      }
    }
    (row, s')
  }

  /** `UPDATE notes SET title = $1, content = $2, updated_at =
      CURRENT_TIMESTAMP WHERE id = $3 RETURNING *`. */
  function Update(s: Store, id: int, title: Json, content: Json, now: string): (r: (Row, Store))
    requires id in s.rows
    ensures var prior := s.rows[id];
      && r.0.id == prior.id && r.0.userId == prior.userId && r.0.createdAt == prior.createdAt
      && r.0.title == title && r.0.content == content && r.0.updatedAt == now
    ensures r.1.rows.Keys == s.rows.Keys && r.1.rows[id] == r.0
    ensures forall k | k in s.rows && k != id :: r.1.rows[k] == s.rows[k]
    ensures r.1.nextId == s.nextId
    ensures Valid(s) ==> Valid(r.1)
  {
    var row := s.rows[id].(title := title, content := content, updatedAt := now);
    (row, s.(rows := s.rows[id := row]))
  }

  /** `DELETE FROM notes WHERE id = $1 RETURNING *`. */
  function Delete(s: Store, id: int): (r: (Row, Store))
    requires id in s.rows
    ensures r.0 == s.rows[id]
    ensures r.1.rows.Keys == s.rows.Keys - {id}
    ensures forall k | k in r.1.rows :: r.1.rows[k] == s.rows[k]
    ensures r.1.nextId == s.nextId
    ensures Valid(s) ==> Valid(r.1)
  {
    (s.rows[id], s.(rows := s.rows - {id}))
  }

  /** `SELECT * FROM notes WHERE user_id = $1`, scanning ids from `from`
      upwards. SQL leaves the order open; the model lists by ascending id. */
  function OwnedFrom(s: Store, userId: int, from: int): (r: seq<Row>)
    ensures forall row | row in r :: row in s.rows.Values && row.userId == userId
    decreases s.nextId - from
  {
    if from >= s.nextId then []
    else
      var here := if from in s.rows && s.rows[from].userId == userId then [s.rows[from]] else [];
      here + OwnedFrom(s, userId, from + 1)
  }

  /** Every row listed is a stored row of the caller's; `OwnedByExactly`
      adds that none is missed. */
  function OwnedBy(s: Store, userId: int): (r: seq<Row>)
    ensures forall row | row in r :: row in s.rows.Values && row.userId == userId
  {
    OwnedFrom(s, userId, 1)
  }

  /** The scan from `from` lists exactly the caller's rows with ids from
      `from` upwards. */
  lemma {:induction false} OwnedFromMembers(s: Store, userId: int, from: int)
    requires Valid(s)
    ensures forall row :: row in OwnedFrom(s, userId, from) <==>
      from <= row.id && row.id in s.rows && s.rows[row.id] == row && row.userId == userId
    decreases s.nextId - from
  {
    if from < s.nextId {
      OwnedFromMembers(s, userId, from + 1);
      var rest := OwnedFrom(s, userId, from + 1);
      if from in s.rows && s.rows[from].userId == userId {
        assert OwnedFrom(s, userId, from) == [s.rows[from]] + rest;
      } else {
        assert OwnedFrom(s, userId, from) == rest;
      }
    } else {
      assert OwnedFrom(s, userId, from) == [];
    }
  }

  /** The listing holds exactly the caller's rows. */
  lemma OwnedByExactly(s: Store, userId: int)
    requires Valid(s)
    ensures forall row :: row in OwnedBy(s, userId) <==>
      row.id in s.rows && s.rows[row.id] == row && row.userId == userId
  {
    OwnedFromMembers(s, userId, 1);
  }

  /** Strictly ascending ids: no row twice, lowest id first. */
  predicate Ascending(rows: seq<Row>)
  {
    forall i, j | 0 <= i < j < |rows| :: rows[i].id < rows[j].id
  }

  lemma ConsAscending(row: Row, rest: seq<Row>)
    requires Ascending(rest)
    requires forall r | r in rest :: row.id < r.id
    ensures Ascending([row] + rest)
  {
    var r := [row] + rest;
    forall i, j | 0 <= i < j < |r|
      ensures r[i].id < r[j].id
    {
      assert r[j] == rest[j - 1];
      if i > 0 {
        assert r[i] == rest[i - 1];
      }
    }
  }

  /** Every row the scan from `from` lists has an id at least `from`. */
  lemma OwnedFromAbove(s: Store, userId: int, from: int)
    requires Valid(s)
    ensures forall row | row in OwnedFrom(s, userId, from) :: from <= row.id
  {
    OwnedFromMembers(s, userId, from);
  }

  /** Each row is listed once, in ascending id order. */
  lemma {:induction false} OwnedFromAscending(s: Store, userId: int, from: int)
    requires Valid(s)
    ensures Ascending(OwnedFrom(s, userId, from))
    decreases s.nextId - from
  {
    var r := OwnedFrom(s, userId, from);
    if from < s.nextId {
      var rest := OwnedFrom(s, userId, from + 1);
      assert Ascending(rest) by {
        OwnedFromAscending(s, userId, from + 1);
      }
      if from in s.rows && s.rows[from].userId == userId {
        var row := s.rows[from];
        assert r == [row] + rest;
        assert Ascending([row] + rest) by {
          assert row.id == from;
          OwnedFromAbove(s, userId, from + 1);
          ConsAscending(row, rest);
        }
      } else {
        assert r == rest;
      }
    } else {
      assert r == [];
    }
  }

  /** The JSON of a row as `pg` returns it and `res.json` sends it: column
      names as keys. */
  function RowJson(row: Row): (j: Json)
    ensures Get(j, "id") == Some(JNum(row.id)) && Get(j, "user_id") == Some(JNum(row.userId))
    ensures Get(j, "title") == Some(row.title) && Get(j, "content") == Some(row.content)
    ensures Get(j, "created_at") == Some(JStr(row.createdAt)) && Get(j, "updated_at") == Some(JStr(row.updatedAt))
    ensures j.JObj? && j.fields.Keys == {"id", "user_id", "title", "content", "created_at", "updated_at"}
  {
    JObj(map[
      "id" := JNum(row.id),
      "user_id" := JNum(row.userId),
      "title" := row.title,
      "content" := row.content,
      "created_at" := JStr(row.createdAt),
      "updated_at" := JStr(row.updatedAt)])
  }

  // ---- The `:id` route parameter, read by PostgreSQL as an `integer`. ----

  const IntMin: int := -0x8000_0000
  const IntMax: int := 0x7FFF_FFFF

  function DigitValue(c: char): Option<nat>
  {
    if '0' <= c <= '9' then Some(c as int - '0' as int) else None
  }

  /** A non-empty run of decimal digits. */
  function ParseDigits(s: string): (r: Option<nat>)
    decreases |s|
  {
    if |s| == 0 then None
    else if |s| == 1 then DigitValue(s[0])
    else match (ParseDigits(s[..|s| - 1]), DigitValue(s[|s| - 1]))
      case (Some(p), Some(d)) => Some(p * 10 + d)
      case _ => None
  }

  predicate AllDigits(s: string)
  {
    forall i | 0 <= i < |s| :: '0' <= s[i] <= '9'
  }

  /** The value of a digit string read from the left, the way it is
      written: each digit shifts what came before one place up. */
  function ReadDigits(acc: nat, s: string): nat
    requires AllDigits(s)
    decreases |s|
  {
    if |s| == 0 then acc else ReadDigits(acc * 10 + (s[0] as int - '0' as int), s[1..])
  }

  /** Appending a digit shifts the reading one place up. */
  lemma {:induction false} ReadDigitsSnoc(acc: nat, s: string, c: char)
    requires AllDigits(s) && '0' <= c <= '9'
    ensures AllDigits(s + [c])
    ensures ReadDigits(acc, s + [c]) == ReadDigits(acc, s) * 10 + (c as int - '0' as int)
    decreases |s|
  {
    var t := s + [c];
    if |s| > 0 {
      assert t[1..] == s[1..] + [c];
      ReadDigitsSnoc(acc * 10 + (s[0] as int - '0' as int), s[1..], c);
    } else {
      assert t == [c] && t[1..] == [];
    }
  }

  /** `ParseDigits` accepts exactly the non-empty digit strings, with the
      value they are written as. */
  lemma {:induction false} ParseDigitsValue(s: string)
    ensures ParseDigits(s).Some? <==> |s| > 0 && AllDigits(s)
    ensures ParseDigits(s).Some? ==> ParseDigits(s).value == ReadDigits(0, s)
    decreases |s|
  {
    if |s| == 1 {
      assert s[1..] == [];
    } else if |s| > 1 {
      var p := s[..|s| - 1];
      var c := s[|s| - 1];
      assert s == p + [c];
      ParseDigitsValue(p);
      if '0' <= c <= '9' && AllDigits(p) {
        ReadDigitsSnoc(0, p, c);
      } else if !('0' <= c <= '9') {
        assert !AllDigits(s);
      } else {
        assert !AllDigits(s) by {
          var i :| 0 <= i < |p| && !('0' <= p[i] <= '9');
          assert s[i] == p[i];
        }
      }
    }
  }

  /** The digits after an optional leading sign. */
  function Unsigned(raw: string): string
  {
    if |raw| > 0 && (raw[0] == '-' || raw[0] == '+') then raw[1..] else raw
  }

  /** An optional sign followed by at least one digit. */
  predicate SignedDigits(raw: string)
  {
    |Unsigned(raw)| > 0 && AllDigits(Unsigned(raw))
  }

  function SignedValue(raw: string): int
    requires SignedDigits(raw)
  {
    if raw[0] == '-' then 0 - ReadDigits(0, Unsigned(raw)) else ReadDigits(0, Unsigned(raw))
  }

  /** PostgreSQL's `integer` input: an optional sign, digits, and the
      32-bit range; anything else makes the query throw. */
  function ParseId(raw: string): (r: Option<int>)
    ensures r.Some? <==> SignedDigits(raw) && IntMin <= SignedValue(raw) <= IntMax
    ensures r.Some? ==> r.value == SignedValue(raw)
  {
    ParseDigitsValue(Unsigned(raw));
    var v: Option<int> :=
      if |raw| > 0 && raw[0] == '-' then
        (match ParseDigits(raw[1..]) case Some(n) => Some(0 - n) case None => None)
      else if |raw| > 0 && raw[0] == '+' then
        (match ParseDigits(raw[1..]) case Some(n) => Some(n as int) case None => None)
      else
        (match ParseDigits(raw) case Some(n) => Some(n as int) case None => None);
    if v.Some? && IntMin <= v.value <= IntMax then v else None
  }

  function DigitChar(d: int): char
    requires 0 <= d < 10
  {
    (48 + d) as char
  }

  /** Decimal digits of a natural number, as Swift's string interpolation
      writes an `Int`. */
  function Digits(n: nat): (s: string)
    ensures |s| > 0 && '0' <= s[0] <= '9'
    decreases n
  {
    if n < 10 then [DigitChar(n)] else Digits(n / 10) + [DigitChar(n % 10)]
  }

  function Decimal(n: int): string
  {
    if n < 0 then "-" + Digits(-n) else Digits(n)
  }

  lemma {:induction false} ParseDigitsDigits(n: nat)
    ensures ParseDigits(Digits(n)) == Some(n)
    decreases n
  {
    if n >= 10 {
      var s := Digits(n);
      assert s[..|s| - 1] == Digits(n / 10);
      ParseDigitsDigits(n / 10);
    }
  }

  /** An id written in decimal, as the client puts it in the path, reads
      back as that id. */
  lemma ParseDecimal(n: int)
    requires IntMin <= n <= IntMax
    ensures ParseId(Decimal(n)) == Some(n)
  {
    var s := Decimal(n);
    if n < 0 {
      ParseDigitsDigits(-n);
      assert s[0] == '-' && s[1..] == Digits(-n);
    } else {
      ParseDigitsDigits(n);
      assert s == Digits(n) && s[0] != '-' && s[0] != '+';
    }
  }
}
