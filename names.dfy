/**
 * Names derived from a database path by `backup_db`: the split of the path
 * at its last period, the local backup artifact `<base>_backup<ext>`, and
 * the remote title `<base>_<DD/MM/YY_HH:MM><ext>`.
 */
module Names {

  datatype Option<T> = None | Some(value: T)

  /** `s.rfind(c)`: the index of the last occurrence of `c`, or -1. */
  function RFind(s: string, c: char): (r: int)
    ensures -1 <= r < |s|
  {
    if |s| == 0 then -1
    else if s[|s| - 1] == c then |s| - 1
    else RFind(s[..|s| - 1], c)
  }

  /** `RFind` finds the last occurrence, and -1 exactly when there is none. */
  lemma {:induction false} RFindLast(s: string, c: char)
    ensures var r := RFind(s, c);
            && -1 <= r < |s|
            && (r == -1 <==> c !in s)
            && (r >= 0 ==> s[r] == c && forall j :: r < j < |s| ==> s[j] != c)
  {
    if |s| > 0 && s[|s| - 1] != c {
      RFindLast(s[..|s| - 1], c);
      assert s == s[..|s| - 1] + [s[|s| - 1]];
    }
  }

  /** `s.find(c)`: the index of the first occurrence of `c`, or -1. */
  function Find(s: string, c: char): (r: int)
    ensures -1 <= r < |s|
    ensures r == -1 <==> c !in s
    ensures r >= 0 ==> s[r] == c && forall j :: 0 <= j < r ==> s[j] != c
  {
    if |s| == 0 then -1
    else if s[0] == c then 0
    else
      var k := Find(s[1..], c);
      if k == -1 then -1 else k + 1
  }

  /**
   * The position a Python slice bound `i` denotes in a sequence of length
   * `n`: a negative bound counts from the end, and either kind is clamped
   * to the sequence.
   */
  function PyIndex(n: nat, i: int): (k: nat)
    ensures k <= n
    ensures 0 <= i <= n ==> k == i
  {
    if i < 0 then (if n + i < 0 then 0 else n + i)
    else if i > n then n
    else i
  }

  /** The two halves of a database path. */
  datatype NameParts = NameParts(base: string, ext: string)

  /** An extension as `backup_db` produces it from a path with a period. */
  predicate IsExtension(ext: string)
  {
    |ext| >= 1 && ext[0] == '.' && forall j :: 1 <= j < |ext| ==> ext[j] != '.'
  }

  /**
   * `db[:index]` and `db[index:]` with `index = db.rfind('.')`.  The halves
   * always put the path back together; when the path holds a period the
   * extension is its last period and what follows.
   */
  function SplitName(path: string): (p: NameParts)
    ensures p.base + p.ext == path
  {
    var i := RFind(path, '.');
    var k := PyIndex(|path|, i);
    assert path == path[..k] + path[k..];
    NameParts(path[..k], path[k..])
  }

  /** A path with a period is split at its last period. */
  lemma SplitAtLastPeriod(path: string)
    requires '.' in path
    ensures IsExtension(SplitName(path).ext)
    ensures |SplitName(path).base| == RFind(path, '.')
  {
    RFindLast(path, '.');
  }

  /**
   * A split with an extension is the only one: whatever base and extension
   * put `path` together, with the extension a period followed by no other
   * period, are the ones `SplitName` returns.
   */
  lemma SplitNameUnique(path: string, base: string, ext: string)
    requires base + ext == path && IsExtension(ext)
    ensures SplitName(path) == NameParts(base, ext)
  {
    var i := RFind(path, '.');
    RFindLast(path, '.');
    assert path[|base|] == '.';
    assert i == |base|;
    assert path[..i] == base;
    assert path[i..] == ext;
  }

  /**
   * What `backup_db` does with a path that has no period (a case the
   * validation at startup keeps from it): Python's slice bound -1 makes the
   * last character the extension.
   */
  lemma SplitNameWithoutPeriod(path: string)
    requires '.' !in path && |path| > 0
    ensures SplitName(path) == NameParts(path[..|path| - 1], path[|path| - 1..])
  {
    RFindLast(path, '.');
  }

  /** The local file the snapshot is written to, and the file uploaded. */
  function ArtifactName(p: NameParts): string
  {
    p.base + "_backup" + p.ext
  }

  /** The artifact keeps the database's extension and its base gains `_backup`. */
  lemma ArtifactSplit(p: NameParts)
    requires IsExtension(p.ext)
    ensures SplitName(ArtifactName(p)) == NameParts(p.base + "_backup", p.ext)
  {
    SplitNameUnique(ArtifactName(p), p.base + "_backup", p.ext);
  }

  /** A point in local time, already split into the fields `strftime` prints. */
  datatype Stamp = Stamp(day: int, month: int, year: int, hour: int, minute: int)

  predicate ValidStamp(t: Stamp)
  {
    1 <= t.day <= 31 && 1 <= t.month <= 12 && 1 <= t.year <= 9999 &&
    0 <= t.hour <= 23 && 0 <= t.minute <= 59
  }

  /** The numbers a `DD/MM/YY_HH:MM` text shows, in order. */
  datatype Fields = Fields(day: int, month: int, year2: int, hour: int, minute: int)

  /** The fields `%d/%m/%y_%H:%M` prints for `t`: `%y` is the year within its century. */
  function Shown(t: Stamp): Fields
  {
    Fields(t.day, t.month, t.year % 100, t.hour, t.minute)
  }

  predicate IsDigit(c: char)
  {
    '0' <= c <= '9'
  }

  function DigitValue(c: char): int
    requires IsDigit(c)
  {
    c as int - '0' as int
  }

  function Digit(n: int): (c: char)
    requires 0 <= n < 10
    ensures IsDigit(c) && DigitValue(c) == n
  {
    (n + '0' as int) as char
  }

  /** A number below 100 as two zero-padded decimal digits, as `%02d`. */
  function Pad2(n: int): (s: string)
    requires 0 <= n < 100
    ensures |s| == 2 && IsDigit(s[0]) && IsDigit(s[1])
    ensures DigitValue(s[0]) * 10 + DigitValue(s[1]) == n
  {
    [Digit(n / 10), Digit(n % 10)]
  }

  /** The value of two decimal digits, if both are digits. */
  function ReadPad2(s: string): (r: Option<int>)
    requires |s| == 2
    ensures r.Some? ==> 0 <= r.value < 100
  {
    if IsDigit(s[0]) && IsDigit(s[1]) then Some(DigitValue(s[0]) * 10 + DigitValue(s[1]))
    else None
  }

  /** `strftime('%d/%m/%y_%H:%M')` of the stamp. */
  function Format(t: Stamp): (s: string)
    requires ValidStamp(t)
    ensures |s| == 14 && '.' !in s
  {
    Pad2(t.day) + "/" + Pad2(t.month) + "/" + Pad2(t.year % 100) + "_" +
    Pad2(t.hour) + ":" + Pad2(t.minute)
  }

  /** Reads a `DD/MM/YY_HH:MM` text back into its fields. */
  function ParseStamp(s: string): Option<Fields>
  {
    if |s| != 14 || s[2] != '/' || s[5] != '/' || s[8] != '_' || s[11] != ':' then None
    else
      match (ReadPad2(s[0..2]), ReadPad2(s[3..5]), ReadPad2(s[6..8]), ReadPad2(s[9..11]), ReadPad2(s[12..14]))
      case (Some(d), Some(m), Some(y), Some(h), Some(mi)) => Some(Fields(d, m, y, h, mi))
      case _ => None
  }

  /** The formatted stamp reads back as the fields `strftime` was asked to print. */
  lemma ParseFormat(t: Stamp)
    requires ValidStamp(t)
    ensures ParseStamp(Format(t)) == Some(Shown(t))
  {
    var s := Format(t);
    assert s[0..2] == Pad2(t.day);
    assert s[3..5] == Pad2(t.month);
    assert s[6..8] == Pad2(t.year % 100);
    assert s[9..11] == Pad2(t.hour);
    assert s[12..14] == Pad2(t.minute);
  }

  /** Two stamps give the same text only when they show the same fields. */
  lemma FormatInjective(t1: Stamp, t2: Stamp)
    requires ValidStamp(t1) && ValidStamp(t2)
    requires Format(t1) == Format(t2)
    ensures Shown(t1) == Shown(t2)
  {
    ParseFormat(t1);
    ParseFormat(t2);
  }

  /** The remote title of one database's backup. */
  function Title(p: NameParts, t: Stamp): string
    requires ValidStamp(t)
  {
    p.base + "_" + Format(t) + p.ext
  }

  /**
   * The title keeps the database's extension: splitting it at its last
   * period gives back the extension, and the base followed by `_` and the
   * formatted stamp.
   */
  lemma TitleSplit(p: NameParts, t: Stamp)
    requires IsExtension(p.ext) && ValidStamp(t)
    ensures SplitName(Title(p, t)) == NameParts(p.base + "_" + Format(t), p.ext)
  {
    SplitNameUnique(Title(p, t), p.base + "_" + Format(t), p.ext);
  }

  /** The stamp can be read back from the title of a database with an extension. */
  lemma TitleStamp(p: NameParts, t: Stamp)
    requires IsExtension(p.ext) && ValidStamp(t)
    ensures var title := Title(p, t);
            |title| == |p.base| + 15 + |p.ext| &&
            ParseStamp(title[|p.base| + 1..|p.base| + 15]) == Some(Shown(t))
  {
    var title := Title(p, t);
    assert title[|p.base| + 1..|p.base| + 15] == Format(t);
    ParseFormat(t);
  }

  /** 3 May 2024 at 14:05 is printed `03/05/24_14:05`. */
  lemma FormatExample()
    ensures Format(Stamp(3, 5, 2024, 14, 5)) == "03/05/24_14:05"
  {
    assert Pad2(3) == "03";
    assert Pad2(5) == "05";
    assert Pad2(24) == "24";
    assert Pad2(14) == "14";
  }

  /** `data.db` splits into `data` and `.db`. */
  lemma SplitExample()
    ensures SplitName("data.db") == NameParts("data", ".db")
  {
    SplitNameUnique("data.db", "data", ".db");
  }

  /** `data.db`, split as above, backed up on 3 May 2024 at 14:05. */
  lemma TitleExample()
    ensures Title(NameParts("data", ".db"), Stamp(3, 5, 2024, 14, 5)) == "data_03/05/24_14:05.db"
    ensures ArtifactName(NameParts("data", ".db")) == "data_backup.db"
  {
    FormatExample();
  }
}
