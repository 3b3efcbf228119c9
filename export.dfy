/**
 * The winners export (functions/api/lottery/export.js, `onRequestGet`): the
 * tenant's winners list laid out as spreadsheet rows, one header row and one
 * row per record, with a seat column only when some record has a seat.
 *
 * The spreadsheet encoding is not modelled; the rows and the column widths
 * are. The date formatting of `winTime` is the parameter `format`, which
 * gives "" for a string that does not parse as a date.
 */
module Export {
  import opened Types
  import Kv
  import Auth
  import opened Store

  /** The characters `String.prototype.trim` strips: ECMAScript white space
      and line terminators. */
  predicate IsJsSpace(c: char) {
    c in {'\t', '\n', '\U{000B}', '\U{000C}', '\r', ' ', '\U{00A0}', '\U{1680}',
          '\U{2000}', '\U{2001}', '\U{2002}', '\U{2003}', '\U{2004}', '\U{2005}',
          '\U{2006}', '\U{2007}', '\U{2008}', '\U{2009}', '\U{200A}',
          '\U{2028}', '\U{2029}', '\U{202F}', '\U{205F}', '\U{3000}', '\U{FEFF}'}
  }

  /** Nothing but white space (the empty string included). */
  predicate Blank(s: string) {
    forall i :: 0 <= i < |s| ==> IsJsSpace(s[i])
  }

  /** The number of white-space characters at the start of s. */
  function Leading(s: string): (n: nat)
    ensures n <= |s|
    ensures forall i :: 0 <= i < n ==> IsJsSpace(s[i])
    ensures n < |s| ==> !IsJsSpace(s[n])
  {
    if s == [] || !IsJsSpace(s[0]) then 0
    else
      var n := Leading(s[1..]);
      assert forall i :: 1 <= i < |s| ==> s[i] == s[1..][i - 1];
      1 + n
  }

  /** The number of white-space characters at the end of s. */
  function Trailing(s: string): (n: nat)
    ensures n <= |s|
    ensures forall i :: |s| - n <= i < |s| ==> IsJsSpace(s[i])
    ensures n < |s| ==> !IsJsSpace(s[|s| - n - 1])
  {
    if s == [] || !IsJsSpace(s[|s| - 1]) then 0
    else 1 + Trailing(s[..|s| - 1])
  }

  /** `String.prototype.trim`: a slice of s that neither starts nor ends with
      white space, with only white space cut off around it. */
  function Trim(s: string): (r: string)
    ensures r != [] ==> !IsJsSpace(r[0]) && !IsJsSpace(r[|r| - 1])
    ensures exists a, b :: 0 <= a <= b <= |s| && r == s[a..b] && Blank(s[..a]) && Blank(s[b..])
  {
    var a := Leading(s);
    var t := s[a..];
    var n := Trailing(t);
    var b := |s| - n;
    assert Blank(s[..a]) by {
      forall i | 0 <= i < a ensures IsJsSpace(s[..a][i]) {
        assert s[..a][i] == s[i];
      }
    }
    assert Blank(s[b..]) by {
      forall i | 0 <= i < n ensures IsJsSpace(s[b..][i]) {
        assert s[b..][i] == t[|t| - n + i];
      }
    }
    assert a < b ==> s[a] == t[0] && s[b - 1] == t[|t| - n - 1];
    s[a..b]
  }

  /** The trimmed string is empty exactly when the string is blank. */
  lemma TrimEmptyIffBlank(s: string)
    ensures Trim(s) == [] <==> Blank(s)
  {
    var a, b :| 0 <= a <= b <= |s| && Trim(s) == s[a..b] && Blank(s[..a]) && Blank(s[b..]);
    if Trim(s) == [] {
      forall i | 0 <= i < |s| ensures IsJsSpace(s[i]) {
        if i < a {
          assert s[i] == s[..a][i];
        } else {
          assert s[i] == s[b..][i - b];
        }
      }
    } else {
      assert !IsJsSpace(s[a]) by {
        assert s[a] == Trim(s)[0];
      }
    }
  }

  /** `winners.some(w => w.winnerSeat && String(w.winnerSeat).trim() !== '')`. */
  function HasSeatInfo(ws: seq<WinRecord>): (b: bool)
    ensures b <==> exists i :: 0 <= i < |ws| && !Blank(ws[i].winnerSeat)
  {
    if ws == [] then false
    else
      TrimEmptyIffBlank(ws[0].winnerSeat);
      var rest := HasSeatInfo(ws[1..]);
      assert forall i :: 1 <= i < |ws| ==> ws[i] == ws[1..][i - 1];
      assert rest ==> exists i :: 0 <= i < |ws| && !Blank(ws[i].winnerSeat) by {
        if rest {
          var i :| 0 <= i < |ws[1..]| && !Blank(ws[1..][i].winnerSeat);
          assert ws[i + 1] == ws[1..][i];
        }
      }
      (ws[0].winnerSeat != "" && Trim(ws[0].winnerSeat) != "") || rest
  }

  /** The column labels, the seat column only with seat info. */
  function Header(hasSeat: bool): (h: seq<string>)
    ensures |h| == if hasSeat then 6 else 5
  {
    ["工号", "姓名"] + (if hasSeat then ["桌号"] else []) + ["奖项等级", "奖品名称", "中奖时间"]
  }

  /** The column widths, one per label. */
  function Widths(hasSeat: bool): (ws: seq<nat>)
    ensures |ws| == |Header(hasSeat)|
  {
    [15, 15] + (if hasSeat then [15] else []) + [15, 20, 25]
  }

  /** The time cell: "" for a record without a time. */
  function TimeCell(w: WinRecord, format: string -> string): string {
    if w.winTime == "" then "" else format(w.winTime)
  }

  /** One data row; a missing field is the empty cell. */
  function Row(w: WinRecord, hasSeat: bool, format: string -> string): seq<string> {
    [w.winnerId, w.winnerName] + (if hasSeat then [w.winnerSeat] else []) +
    [w.prizeLevelLabel, w.prizeName, TimeCell(w, format)]
  }

  /** What each label names in a record, independently of the column order. */
  function Cell(title: string, w: WinRecord, format: string -> string): string {
    if title == "工号" then w.winnerId
    else if title == "姓名" then w.winnerName
    else if title == "桌号" then w.winnerSeat
    else if title == "奖项等级" then w.prizeLevelLabel
    else if title == "奖品名称" then w.prizeName
    else if title == "中奖时间" then TimeCell(w, format)
    else ""
  }

  /** Every cell of a row sits under the label that names its field, and a
      row is exactly as wide as the header. */
  lemma RowFollowsHeader(w: WinRecord, hasSeat: bool, format: string -> string)
    ensures |Row(w, hasSeat, format)| == |Header(hasSeat)|
    ensures forall c :: 0 <= c < |Header(hasSeat)| ==>
              Row(w, hasSeat, format)[c] == Cell(Header(hasSeat)[c], w, format)
  {
  }

  /** The sheet: the header row, then one row per record, in list order. */
  function SheetRows(ws: seq<WinRecord>, format: string -> string): (rows: seq<seq<string>>)
    ensures |rows| == 1 + |ws|
    ensures rows[0] == Header(HasSeatInfo(ws))
    ensures forall i :: 0 <= i < |ws| ==> rows[i + 1] == Row(ws[i], HasSeatInfo(ws), format)
  {
    var hasSeat := HasSeatInfo(ws);
    [Header(hasSeat)] + seq(|ws|, i requires 0 <= i < |ws| => Row(ws[i], hasSeat, format))
  }

  /** Every row of the sheet is as wide as its header. */
  lemma SheetIsRectangular(ws: seq<WinRecord>, format: string -> string)
    ensures forall i :: 0 <= i < 1 + |ws| ==> |SheetRows(ws, format)[i]| == |SheetRows(ws, format)[0]|
  {
    forall i | 1 <= i < 1 + |ws| ensures |SheetRows(ws, format)[i]| == |SheetRows(ws, format)[0]| {
      RowFollowsHeader(ws[i - 1], HasSeatInfo(ws), format);
    }
  }

  /** The pushes that build the header row, the `aoaData` rows and `wscols`. */
  method BuildSheet(winners: seq<WinRecord>, format: string -> string)
    returns (aoaData: seq<seq<string>>, wscols: seq<nat>)
    ensures aoaData == SheetRows(winners, format)
    ensures wscols == Widths(HasSeatInfo(winners))
  {
    var hasSeatInfo := HasSeatInfo(winners);
    var headerRow := ["工号", "姓名"];
    if hasSeatInfo {
      headerRow := headerRow + ["桌号"];
    }
    headerRow := headerRow + ["奖项等级", "奖品名称", "中奖时间"];
    aoaData := [headerRow];
    for i := 0 to |winners|
      invariant |aoaData| == 1 + i
      invariant aoaData[0] == Header(hasSeatInfo)
      invariant forall j :: 0 <= j < i ==> aoaData[j + 1] == Row(winners[j], hasSeatInfo, format)
    {
      var w := winners[i];
      var timeStr := "";
      if w.winTime != "" {
        timeStr := format(w.winTime);
      }
      var row := [w.winnerId, w.winnerName];
      if hasSeatInfo {
        row := row + [w.winnerSeat];
      }
      row := row + [w.prizeLevelLabel, w.prizeName, timeStr];
      aoaData := aoaData + [row];
    }
    wscols := [15, 15];
    if hasSeatInfo {
      wscols := wscols + [15];
    }
    wscols := wscols + [15, 20, 25];
  }

  /** The laid-out export. */
  datatype Sheet = Sheet(rows: seq<seq<string>>, widths: seq<nat>)

  /** `onRequestGet`: the password picks the tenant; with no store binding the
      sheet lists no winners. Nothing is written. */
  method OnRequestGet(env: Auth.Env, token: string, kv: KvStore?, format: string -> string)
    returns (res: Result<Sheet>)
    ensures Auth.FindTokenByPassword(env, token).None? ==> res == Err(Unauthorized)
    ensures Auth.FindTokenByPassword(env, token).Some? ==>
      var ws := if kv == null then []
                else RecordsAt(kv.entries, Kv.TokenKeys(Auth.FindTokenByPassword(env, token).value.id).winners);
      res == Ok(Sheet(SheetRows(ws, format), Widths(HasSeatInfo(ws))))
  {
    var tokenConfig := Auth.FindTokenByPassword(env, token);
    if tokenConfig.None? {
      return Err(Unauthorized);
    }
    var winners: seq<WinRecord> := [];
    if kv != null {
      var keys := Kv.TokenKeys(tokenConfig.value.id);
      winners := RecordsAt(kv.entries, keys.winners);
    }
    var aoaData, wscols := BuildSheet(winners, format);
    res := Ok(Sheet(aoaData, wscols));
  }
}
