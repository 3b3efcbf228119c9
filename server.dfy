/**
 * The pure parts of the local Express server (server.js): the upload file
 * filter, the admin check of `authMiddleware`, and the mapping of spreadsheet
 * rows to roster entries in `/api/data`.
 */
module Server {
  import opened Types
  import Auth

  /** Whether `suffix` ends `name`. */
  predicate EndsWith(name: string, suffix: string) {
    |suffix| <= |name| && name[|name| - |suffix|..] == suffix
  }

  /** The multer `fileFilter`: `/\.(xlsx|xls)$/` has no flags, so `$` is the
      end of the name and the test is a suffix test. */
  predicate FileAccepted(name: string) {
    EndsWith(name, ".xlsx") || EndsWith(name, ".xls")
  }

  /** The regular expression as a search: some position of the name starts a
      match of `\.(xlsx|xls)` that reaches the end. */
  predicate RegexMatches(name: string) {
    exists i :: 0 <= i <= |name| && (name[i..] == ".xlsx" || name[i..] == ".xls")
  }

  /** The filter accepts a name exactly when the expression matches it. */
  lemma FileFilterIsRegex(name: string)
    ensures FileAccepted(name) <==> RegexMatches(name)
  {
    if RegexMatches(name) {
      var i :| 0 <= i <= |name| && (name[i..] == ".xlsx" || name[i..] == ".xls");
      assert |name[i..]| == |name| - i;
    }
    if EndsWith(name, ".xlsx") {
      assert name[|name| - 5..] == ".xlsx";
    } else if EndsWith(name, ".xls") {
      assert name[|name| - 4..] == ".xls";
    }
  }

  const AdminPassword := "MEILIN1!"

  /** `authMiddleware`: the request goes on only with the fixed password; ""
      stands for a missing header. */
  predicate AuthMiddleware(token: string) {
    token == AdminPassword
  }

  /** The server's check is the handlers' admin check with no password
      configured. */
  lemma AuthMiddlewareIsDefaultAdmin(token: string)
    ensures AuthMiddleware(token) <==> Auth.AdminAuthorized(Auth.Env(Auth.Unset, ""), token)
  {
  }

  /** One spreadsheet cell of a row as `sheet_to_json` gives it: the column
      header and the cell text ("" for an empty cell). */
  datatype CellEntry = CellEntry(key: string, value: string)

  /** A row object; the entries are in `Object.keys` order. */
  type Row = seq<CellEntry>

  /** The keys of a row, in order. */
  function Keys(row: Row): (ks: seq<string>)
    ensures |ks| == |row|
    ensures forall i :: 0 <= i < |row| ==> ks[i] == row[i].key
  {
    seq(|row|, i requires 0 <= i < |row| => row[i].key)
  }

  predicate Contains(s: string, c: char) {
    c in s
  }

  /** The id column header: contains 号 and one of 工 and 编. */
  predicate IsIdKey(k: string) {
    Contains(k, '号') && (Contains(k, '工') || Contains(k, '编'))
  }

  /** The name column header: contains 名. */
  predicate IsNameKey(k: string) {
    Contains(k, '名')
  }

  /** The seat column header: contains 座. */
  predicate IsSeatKey(k: string) {
    Contains(k, '座')
  }

  /** `Object.keys(row).find(pred)`: the first key that satisfies the test. */
  function FindKey(ks: seq<string>, pred: string -> bool): (r: Option<string>)
    ensures r.None? <==> forall i :: 0 <= i < |ks| ==> !pred(ks[i])
    ensures r.Some? ==> exists i :: 0 <= i < |ks| && ks[i] == r.value && pred(ks[i]) &&
                                    forall j :: 0 <= j < i ==> !pred(ks[j])
  {
    if ks == [] then None
    else if pred(ks[0]) then Some(ks[0])
    else
      var r := FindKey(ks[1..], pred);
      assert forall i :: 1 <= i < |ks| ==> ks[i] == ks[1..][i - 1];
      if r.Some? then
        var i :| 0 <= i < |ks[1..]| && ks[1..][i] == r.value && pred(ks[1..][i]) &&
                 forall j :: 0 <= j < i ==> !pred(ks[1..][j]);
        assert ks[i + 1] == ks[1..][i];
        r
      else r
  }

  /** `row[key] || ''`: the value of the first cell with the key, `''` when there is none. */
  function Lookup(row: Row, key: string): (v: string)
    ensures v != "" ==> exists i :: 0 <= i < |row| && row[i].key == key && row[i].value == v
    ensures forall i :: 0 <= i < |row| && row[i].key == key && (forall j :: 0 <= j < i ==> row[j].key != key) ==>
              v == row[i].value
    ensures (forall i :: 0 <= i < |row| ==> row[i].key != key) ==> v == ""
  {
    if row == [] then ""
    else if row[0].key == key then row[0].value
    else
      var v := Lookup(row[1..], key);
      assert forall i :: 1 <= i < |row| ==> row[i] == row[1..][i - 1];
      if v != "" then
        var i :| 0 <= i < |row[1..]| && row[1..][i].key == key && row[1..][i].value == v;
        assert row[i + 1] == row[1..][i];
        v
      else v
  }

  /** `row[keyFound || fallback] || ''`. */
  function Column(row: Row, pred: string -> bool, fallback: string): string {
    var k := FindKey(Keys(row), pred);
    Lookup(row, if k.Some? then k.value else fallback)
  }

  /** The `map` callback: one roster entry per row. */
  function FormatRow(row: Row): Person {
    Person(Column(row, IsIdKey, "员工编号"), Column(row, IsNameKey, "姓名"), Column(row, IsSeatKey, "座位号"))
  }

  /** `filter(item => item.id && item.name)`. */
  function KeepNamed(ps: seq<Person>): (r: seq<Person>)
    ensures |r| <= |ps|
    ensures forall p :: p in r ==> p in ps && p.id != "" && p.name != ""
  {
    if ps == [] then []
    else (if ps[0].id != "" && ps[0].name != "" then [ps[0]] else []) + KeepNamed(ps[1..])
  }

  /** The filter keeps order: it filters the parts of a split list in turn. */
  lemma {:induction false} KeepNamedAppend(a: seq<Person>, b: seq<Person>)
    ensures KeepNamed(a + b) == KeepNamed(a) + KeepNamed(b)
  {
    if a != [] {
      assert (a + b)[0] == a[0];
      assert (a + b)[1..] == a[1..] + b;
      KeepNamedAppend(a[1..], b);
    } else {
      assert a + b == b;
    }
  }

  /** The filter drops nothing that has an id and a name. */
  lemma {:induction false} KeepNamedKeeps(ps: seq<Person>, p: Person)
    requires p in ps && p.id != "" && p.name != ""
    ensures p in KeepNamed(ps)
  {
    if ps[0] != p {
      KeepNamedKeeps(ps[1..], p);
    }
  }

  /** The whole `rawData.map(...).filter(...)`. */
  function FormatRows(rows: seq<Row>): seq<Person> {
    KeepNamed(seq(|rows|, i requires 0 <= i < |rows| => FormatRow(rows[i])))
  }

  /** Every row with an id and a name makes it into the roster. */
  lemma FormatRowsKeepsNamed(rows: seq<Row>, i: nat)
    requires i < |rows|
    requires FormatRow(rows[i]).id != "" && FormatRow(rows[i]).name != ""
    ensures FormatRow(rows[i]) in FormatRows(rows)
  {
    var mapped := seq(|rows|, j requires 0 <= j < |rows| => FormatRow(rows[j]));
    assert mapped[i] == FormatRow(rows[i]);
    KeepNamedKeeps(mapped, FormatRow(rows[i]));
  }

  /** The roster keeps the row order: the rows of a split sheet give the two
      rosters one after the other. */
  lemma FormatRowsAppend(a: seq<Row>, b: seq<Row>)
    ensures FormatRows(a + b) == FormatRows(a) + FormatRows(b)
  {
    var ma := seq(|a|, j requires 0 <= j < |a| => FormatRow(a[j]));
    var mb := seq(|b|, j requires 0 <= j < |b| => FormatRow(b[j]));
    var mab := seq(|a + b|, j requires 0 <= j < |a + b| => FormatRow((a + b)[j]));
    forall j | 0 <= j < |a + b| ensures mab[j] == (ma + mb)[j] {
      if j < |a| {
        assert (a + b)[j] == a[j];
      } else {
        assert (a + b)[j] == b[j - |a|];
      }
    }
    assert mab == ma + mb;
    KeepNamedAppend(ma, mb);
  }

  /** Each fallback header satisfies its own test, so it is never a key of a
      row in which the test found nothing: the fallback always reads ''. */
  lemma FallbacksReadEmpty(row: Row)
    ensures FindKey(Keys(row), IsIdKey).None? ==> Column(row, IsIdKey, "员工编号") == ""
    ensures FindKey(Keys(row), IsNameKey).None? ==> Column(row, IsNameKey, "姓名") == ""
    ensures FindKey(Keys(row), IsSeatKey).None? ==> Column(row, IsSeatKey, "座位号") == ""
  {
    assert IsIdKey("员工编号") by {
      assert "员工编号"[1] == '工' && "员工编号"[3] == '号';
    }
    assert IsNameKey("姓名") by {
      assert "姓名"[1] == '名';
    }
    assert IsSeatKey("座位号") by {
      assert "座位号"[0] == '座';
    }
  }
}
