/**
 * The detection-history tab (history_view.py): lists the saved images newest
 * first and labels each with the time decoded from its file name. The
 * directory listing is the collaborator: it reaches the model as the names
 * `os.listdir` returned, or None when the save directory does not exist.
 */
module History {
  import opened Wrappers
  import opened Text
  import opened Sorting

  const NoHistoryNotice: string := "No detection history available yet."
  const NoImagesNotice: string := "No detection images found."
  const UnknownTime: string := "Unknown time"

  // ---------------------------------------------------------------------------
  // The extension filter

  /** `f.lower().endswith((".jpg", ".jpeg", ".png"))` */
  predicate IsImageName(f: string)
  {
    var l := Lower(f);
    EndsWith(l, ".jpg") || EndsWith(l, ".jpeg") || EndsWith(l, ".png")
  }

  /** The list comprehension: the image names, in listing order. */
  function ImageFiles(names: seq<string>): (r: seq<string>)
    ensures |r| <= |names|
    ensures forall i :: 0 <= i < |r| ==> IsImageName(r[i])
  {
    if names == [] then []
    else (if IsImageName(names[0]) then [names[0]] else []) + ImageFiles(names[1..])
  }

  /** The filter distributes over concatenation, so survivors keep their relative order. */
  lemma {:induction false} ImageFilesAppend(a: seq<string>, b: seq<string>)
    ensures ImageFiles(a + b) == ImageFiles(a) + ImageFiles(b)
  {
    if a == [] {
      assert a + b == b;
    } else {
      assert (a + b)[1..] == a[1..] + b;
      ImageFilesAppend(a[1..], b);
    }
  }

  /** Every image name is kept as often as it is listed; every other name is dropped. */
  lemma {:induction false} ImageFilesMultiplicity(names: seq<string>, f: string)
    ensures multiset(ImageFiles(names))[f] == if IsImageName(f) then multiset(names)[f] else 0
  {
    if names != [] {
      ImageFilesMultiplicity(names[1..], f);
      assert names == [names[0]] + names[1..];
    }
  }

  /** The test ignores case: `.JPG`, `.Png` or `.jpeg` endings all pass. */
  lemma ExtensionCaseIgnored(stem: string, ext: string)
    requires Lower(ext) in {".jpg", ".jpeg", ".png"}
    ensures IsImageName(stem + ext)
  {
    LowerAppend(stem, ext);
    var l := Lower(stem) + Lower(ext);
    assert l[|l| - |ext|..] == Lower(ext);
  }

  // ---------------------------------------------------------------------------
  // Decoding `detection_YYYYMMDD_HHMMSS.jpg`

  datatype Timestamp = Timestamp(year: int, month: int, day: int, hour: int, minute: int, second: int)

  predicate LeapYear(y: int)
  {
    y % 4 == 0 && (y % 100 != 0 || y % 400 == 0)
  }

  function DaysInMonth(y: int, m: int): int
    requires 1 <= m <= 12
  {
    if m == 2 then (if LeapYear(y) then 29 else 28)
    else if m in {4, 6, 9, 11} then 30
    else 31
  }

  /** The moments `datetime` accepts: years 1 to 9999, real calendar days, no leap seconds. */
  predicate ValidTimestamp(t: Timestamp)
  {
    && 1 <= t.year <= 9999
    && 1 <= t.month <= 12
    && 1 <= t.day <= DaysInMonth(t.year, t.month)
    && 0 <= t.hour < 24
    && 0 <= t.minute < 60
    && 0 <= t.second < 60
  }

  predicate IsDigit(c: char)
  {
    '0' <= c <= '9'
  }

  function DigitChar(d: int): (c: char)
    requires 0 <= d < 10
    ensures IsDigit(c) && c as int - '0' as int == d
  {
    ('0' as int + d) as char
  }

  function DigitValue(c: char): (d: int)
    requires IsDigit(c)
    ensures 0 <= d < 10 && DigitChar(d) == c
  {
    c as int - '0' as int
  }

  /** The two decimal digits of a number below 100, zero-padded (`%m`, `%d`, `%H`, `%M`, `%S`). */
  function Tens(n: int): char
    requires 0 <= n < 100
  {
    DigitChar(n / 10)
  }

  function Ones(n: int): char
    requires 0 <= n < 100
  {
    DigitChar(n % 10)
  }

  function Pad2(n: int): (r: string)
    requires 0 <= n < 100
    ensures |r| == 2
  {
    [Tens(n), Ones(n)]
  }

  /** A year below 10000 as four decimal digits (`%Y`). */
  function Pad4(n: int): (r: string)
    requires 0 <= n < 10000
    ensures |r| == 4
  {
    Pad2(n / 100) + Pad2(n % 100)
  }

  /** The two-digit number at position `i` of `s`. */
  function TwoDigits(s: string, i: int): (n: int)
    requires 0 <= i && i + 1 < |s| && IsDigit(s[i]) && IsDigit(s[i + 1])
    ensures 0 <= n < 100 && Tens(n) == s[i] && Ones(n) == s[i + 1]
  {
    var a, b := DigitValue(s[i]), DigitValue(s[i + 1]);
    assert (10 * a + b) / 10 == a && (10 * a + b) % 10 == b;
    10 * a + b
  }

  lemma TwoDigitsOf(s: string, i: int, n: int)
    requires 0 <= i && i + 1 < |s| && 0 <= n < 100 && s[i] == Tens(n) && s[i + 1] == Ones(n)
    ensures IsDigit(s[i]) && IsDigit(s[i + 1]) && TwoDigits(s, i) == n
  {
  }

  /** The `%Y%m%d_%H%M%S` text of a moment. */
  function Compact(t: Timestamp): (r: string)
    requires ValidTimestamp(t)
    ensures |r| == 15
  {
    var hi, lo := t.year / 100, t.year % 100;
    [Tens(hi), Ones(hi), Tens(lo), Ones(lo), Tens(t.month), Ones(t.month), Tens(t.day), Ones(t.day), '_',
     Tens(t.hour), Ones(t.hour), Tens(t.minute), Ones(t.minute), Tens(t.second), Ones(t.second)]
  }

  /** Fourteen digits with an underscore after the eighth. */
  predicate CompactShape(ts: string)
  {
    |ts| == 15 && ts[8] == '_' && forall i :: 0 <= i < 15 && i != 8 ==> IsDigit(ts[i])
  }

  /**
   * `datetime.strptime(ts, "%Y%m%d_%H%M%S")` for fixed-width fields: the
   * moment written in `ts`, or None where strptime raises.
   */
  function ParseTimestamp(ts: string): (r: Option<Timestamp>)
    ensures r.Some? ==> ValidTimestamp(r.value) && Compact(r.value) == ts
  {
    if !CompactShape(ts) then None
    else
      var hi, lo := TwoDigits(ts, 0), TwoDigits(ts, 2);
      var t := Timestamp(100 * hi + lo, TwoDigits(ts, 4), TwoDigits(ts, 6),
                         TwoDigits(ts, 9), TwoDigits(ts, 11), TwoDigits(ts, 13));
      if ValidTimestamp(t) then
        assert (100 * hi + lo) / 100 == hi && (100 * hi + lo) % 100 == lo;
        assert Compact(t) == ts;
        Some(t)
      else None
  }

  /** Reading back the text of any valid moment gives that moment. */
  lemma ParseCompact(t: Timestamp)
    requires ValidTimestamp(t)
    ensures ParseTimestamp(Compact(t)) == Some(t)
  {
    var ts := Compact(t);
    var hi, lo := t.year / 100, t.year % 100;
    TwoDigitsOf(ts, 0, hi);
    TwoDigitsOf(ts, 2, lo);
    TwoDigitsOf(ts, 4, t.month);
    TwoDigitsOf(ts, 6, t.day);
    TwoDigitsOf(ts, 9, t.hour);
    TwoDigitsOf(ts, 11, t.minute);
    TwoDigitsOf(ts, 13, t.second);
    assert CompactShape(ts);
  }

  /** `strftime("%Y-%m-%d %H:%M")` */
  function DisplayLabel(t: Timestamp): (r: string)
    requires ValidTimestamp(t)
    ensures |r| == 16 && r != UnknownTime
    ensures r[4] == '-' && r[7] == '-' && r[10] == ' ' && r[13] == ':'
    ensures var c := Compact(t); r == c[..4] + "-" + c[4..6] + "-" + c[6..8] + " " + c[9..11] + ":" + c[11..13]
  {
    Pad4(t.year) + "-" + Pad2(t.month) + "-" + Pad2(t.day) + " " + Pad2(t.hour) + ":" + Pad2(t.minute)
  }

  /** The label shows the minute and drops the seconds. */
  lemma DisplayDropsSeconds(t: Timestamp, s: int)
    requires ValidTimestamp(t) && 0 <= s < 60
    ensures DisplayLabel(t.(second := s)) == DisplayLabel(t)
  {
  }

  /** `file.replace("detection_", "").replace(".jpg", "")` */
  function Stem(file: string): (r: string)
    ensures |r| <= |file|
  {
    RemoveAll(RemoveAll(file, "detection_"), ".jpg")
  }

  /** The time shown for a file: its decoded moment, or "Unknown time" where decoding raises. */
  function TimeLabel(file: string): (r: string)
    ensures r == UnknownTime <==> ParseTimestamp(Stem(file)).None?
    ensures r != UnknownTime ==> |r| == 16
    ensures r != UnknownTime ==> exists t :: ValidTimestamp(t) && Compact(t) == Stem(file) && r == DisplayLabel(t)
  {
    match ParseTimestamp(Stem(file))
    case Some(t) => DisplayLabel(t)
    case None => UnknownTime
  }

  /** Any file whose stripped stem is the text of a valid moment is labelled with that moment. */
  lemma TimeLabelOfStem(file: string, t: Timestamp)
    requires ValidTimestamp(t) && Stem(file) == Compact(t)
    ensures TimeLabel(file) == DisplayLabel(t)
  {
    ParseCompact(t);
  }

  /** The name under which a detection taken at `t` is saved. */
  function DetectionName(t: Timestamp): string
    requires ValidTimestamp(t)
  {
    "detection_" + Compact(t) + ".jpg"
  }

  lemma CompactHasNoMarkers(t: Timestamp)
    requires ValidTimestamp(t)
    ensures 'd' !in Compact(t) && '.' !in Compact(t)
  {
    var c := Compact(t);
    ParseCompact(t);
    assert CompactShape(c);
  }

  /** A saved detection's name decodes to the minute it was taken. */
  lemma DecodeDetectionName(t: Timestamp)
    requires ValidTimestamp(t)
    ensures TimeLabel(DetectionName(t)) == DisplayLabel(t)
  {
    var c := Compact(t);
    CompactHasNoMarkers(t);
    RemoveAllFront("detection_", c + ".jpg");
    assert "detection_" + c + ".jpg" == "detection_" + (c + ".jpg");
    RemoveAllSkips(c, ".jpg", "detection_");
    assert RemoveAll(".jpg", "detection_") == ".jpg";
    RemoveAllSkips(c, ".jpg", ".jpg");
    RemoveAllFront(".jpg", "");
    assert ".jpg" + "" == ".jpg";
    assert Stem(DetectionName(t)) == c + "";
    assert c + "" == c;
    ParseCompact(t);
  }

  /**
   * Only a name ending in exactly `.jpg` can lose its extension: any other image
   * name (`.png`, `.jpeg`, `.JPG`, ...) keeps a letter at the end of its stem
   * and shows "Unknown time".
   */
  lemma NonJpgImagesUnknown(f: string)
    requires IsImageName(f) && !EndsWith(f, ".jpg")
    ensures TimeLabel(f) == UnknownTime
  {
    var l := Lower(f);
    var n := if EndsWith(l, ".jpeg") then 5 else 4;
    var w := f[|f| - n..];
    assert Lower(w) == l[|f| - n..];
    if n == 5 {
      assert Lower(w)[1] == LowerChar(w[1]) == 'j';
    }
    StemKeepsExtension(f, w);
    ExtensionLetters(w);
    LetterEndUnknown(f, w);
  }

  lemma StemKeepsExtension(f: string, w: string)
    requires EndsWith(f, w) && Lower(w) in {".jpg", ".jpeg", ".png"}
    requires |w| == 4 ==> w != ".jpg"
    requires |w| == 5 ==> w[1] != '.'
    ensures EndsWith(Stem(f), w)
  {
    ExtensionLetters(w);
    RemoveAllKeepsFreeSuffix(f, "detection_", w);
    assert !EndsWith(w, ".jpg");
    RemoveAllKeepsSuffix(RemoveAll(f, "detection_"), ".jpg", w);
  }

  lemma LetterEndUnknown(f: string, w: string)
    requires EndsWith(Stem(f), w) && |w| > 0 && !IsDigit(w[|w| - 1])
    ensures TimeLabel(f) == UnknownTime
  {
    var stem := Stem(f);
    assert stem[|stem| - 1] == w[|w| - 1];
    assert !CompactShape(stem);
  }

  /** The characters of an image extension: none is an underscore, a `g` only at the end, ending in a letter. */
  lemma ExtensionLetters(w: string)
    requires Lower(w) in {".jpg", ".jpeg", ".png"}
    ensures forall i :: 0 <= i < |w| ==> w[i] != '_'
    ensures forall i :: 0 <= i < |w| - 1 ==> w[i] != 'g'
    ensures |w| >= 4 && !IsDigit(w[|w| - 1])
  {
    var l := Lower(w);
    var e := if l == ".jpg" then ".jpg" else if l == ".jpeg" then ".jpeg" else ".png";
    assert l == e;
    ExtensionChars(e);
    forall i | 0 <= i < |w|
      ensures w[i] != '_' && (i < |w| - 1 ==> w[i] != 'g') && (i == |w| - 1 ==> !IsDigit(w[i]))
    {
      assert e[i] == LowerChar(w[i]);
    }
  }

  lemma ExtensionChars(e: string)
    requires e in {".jpg", ".jpeg", ".png"}
    ensures forall i :: 0 <= i < |e| ==> e[i] != '_'
    ensures forall i :: 0 <= i < |e| - 1 ==> e[i] != 'g'
    ensures |e| >= 4 && e[|e| - 1] == 'g'
  {
  }

  // ---------------------------------------------------------------------------
  // Newest first: name order is time order

  /** `t1` is not later than `t2`, comparing year, month, day, hour, minute and second in turn. */
  predicate NotAfter(t1: Timestamp, t2: Timestamp)
  {
    || t1.year < t2.year
    || (t1.year == t2.year && t1.month < t2.month)
    || (t1.year == t2.year && t1.month == t2.month && t1.day < t2.day)
    || (t1.year == t2.year && t1.month == t2.month && t1.day == t2.day && t1.hour < t2.hour)
    || (t1.year == t2.year && t1.month == t2.month && t1.day == t2.day && t1.hour == t2.hour
        && t1.minute < t2.minute)
    || (t1.year == t2.year && t1.month == t2.month && t1.day == t2.day && t1.hour == t2.hour
        && t1.minute == t2.minute && t1.second <= t2.second)
  }

  /** Zero-padded two-digit numbers compare as the numbers do. */
  lemma Pad2Step(a: int, b: int, x: string, y: string)
    requires 0 <= a < 100 && 0 <= b < 100
    ensures LexLe(Pad2(a) + x, Pad2(b) + y) <==> a < b || (a == b && LexLe(x, y))
  {
    LexLeSameLength(Pad2(a), Pad2(b), x, y);
    assert Pad2(a) == Pad2(b) <==> a == b by {
      if Pad2(a) == Pad2(b) {
        assert Tens(a) == Tens(b) && Ones(a) == Ones(b);
        assert a == 10 * (a / 10) + a % 10 && b == 10 * (b / 10) + b % 10;
      }
    }
    assert LexLe(Pad2(a), Pad2(b)) <==> a / 10 < b / 10 || (a / 10 == b / 10 && a % 10 <= b % 10) by {
      assert Pad2(a)[1..] == [Ones(a)] && Pad2(b)[1..] == [Ones(b)];
      assert [Ones(a)][1..] == [] && [Ones(b)][1..] == [];
      assert LexLe([], []);
      assert Tens(a) < Tens(b) <==> a / 10 < b / 10;
      assert Ones(a) < Ones(b) <==> a % 10 < b % 10;
      assert Tens(a) == Tens(b) <==> a / 10 == b / 10;
      assert Ones(a) == Ones(b) <==> a % 10 == b % 10;
    }
  }

  /** The saved name with its timestamp split into two-digit groups. */
  lemma NameGroups(t: Timestamp)
    requires ValidTimestamp(t)
    ensures Compact(t) + ".jpg" == Pad2(t.year / 100) + (Pad2(t.year % 100) + (Pad2(t.month) + (Pad2(t.day)
      + ("_" + (Pad2(t.hour) + (Pad2(t.minute) + (Pad2(t.second) + ".jpg")))))))
  {
  }

  /**
   * Sorting saved names in reverse puts the newest first: one saved name is
   * not larger than another exactly when its moment is not later.
   */
  lemma NameOrderIsTimeOrder(t1: Timestamp, t2: Timestamp)
    requires ValidTimestamp(t1) && ValidTimestamp(t2)
    ensures LexLe(DetectionName(t1), DetectionName(t2)) <==> NotAfter(t1, t2)
  {
    var c1, c2 := Compact(t1) + ".jpg", Compact(t2) + ".jpg";
    assert DetectionName(t1) == "detection_" + c1 && DetectionName(t2) == "detection_" + c2;
    LexLeCommonPrefix("detection_", c1, c2);
    NameGroups(t1);
    NameGroups(t2);
    var s1 := Pad2(t1.second) + ".jpg";
    var s2 := Pad2(t2.second) + ".jpg";
    LexLeReflexive(".jpg");
    Pad2Step(t1.second, t2.second, ".jpg", ".jpg");
    var mi1, mi2 := Pad2(t1.minute) + s1, Pad2(t2.minute) + s2;
    Pad2Step(t1.minute, t2.minute, s1, s2);
    var h1, h2 := Pad2(t1.hour) + mi1, Pad2(t2.hour) + mi2;
    Pad2Step(t1.hour, t2.hour, mi1, mi2);
    LexLeCommonPrefix("_", h1, h2);
    var d1, d2 := Pad2(t1.day) + ("_" + h1), Pad2(t2.day) + ("_" + h2);
    Pad2Step(t1.day, t2.day, "_" + h1, "_" + h2);
    var m1, m2 := Pad2(t1.month) + d1, Pad2(t2.month) + d2;
    Pad2Step(t1.month, t2.month, d1, d2);
    var lo1, lo2 := Pad2(t1.year % 100) + m1, Pad2(t2.year % 100) + m2;
    Pad2Step(t1.year % 100, t2.year % 100, m1, m2);
    Pad2Step(t1.year / 100, t2.year / 100, lo1, lo2);
    YearGroups(t1.year, t2.year);
  }

  lemma YearGroups(y1: int, y2: int)
    requires 0 <= y1 < 10000 && 0 <= y2 < 10000
    ensures y1 < y2 <==> y1 / 100 < y2 / 100 || (y1 / 100 == y2 / 100 && y1 % 100 < y2 % 100)
    ensures y1 == y2 <==> y1 / 100 == y2 / 100 && y1 % 100 == y2 % 100
  {
    assert y1 == 100 * (y1 / 100) + y1 % 100 && y2 == 100 * (y2 / 100) + y2 % 100;
  }

  // ---------------------------------------------------------------------------
  // The listing

  /** One expander of the tab: the file and the time in its title. */
  datatype Entry = Entry(file: string, time: string)

  /** What the tab shows: one of the two notices, or the total and the entries in display order. */
  datatype HistoryView = NoHistory | NoImages | Listing(total: nat, entries: seq<Entry>)

  function Labelled(files: seq<string>): (r: seq<Entry>)
    ensures |r| == |files|
    ensures forall k :: 0 <= k < |files| ==> r[k] == Entry(files[k], TimeLabel(files[k]))
  {
    if files == [] then [] else [Entry(files[0], TimeLabel(files[0]))] + Labelled(files[1..])
  }

  function FilesOf(entries: seq<Entry>): (r: seq<string>)
    ensures |r| == |entries| && forall k :: 0 <= k < |entries| ==> r[k] == entries[k].file
  {
    if entries == [] then [] else [entries[0].file] + FilesOf(entries[1..])
  }

  /** The entries for a non-empty list of image names: all of them, largest first, each with its time. */
  function ListingOf(files: seq<string>): (v: HistoryView)
    requires files != []
    ensures v.Listing? && v.total == |v.entries| == |files|
    ensures NonIncreasing(FilesOf(v.entries)) && multiset(FilesOf(v.entries)) == multiset(files)
    ensures forall k :: 0 <= k < |v.entries| ==> v.entries[k].time == TimeLabel(v.entries[k].file)
  {
    var sorted := SortDescending(files);
    assert |sorted| == |files| by {
      assert |multiset(sorted)| == |multiset(files)|;
    }
    assert FilesOf(Labelled(sorted)) == sorted;
    Listing(|sorted|, Labelled(sorted))
  }

  /**
   * The tab for a directory listing: a notice when the directory is missing
   * or holds no image, otherwise every image name, largest first, with its time.
   */
  function HistoryOf(dir: Option<seq<string>>): (v: HistoryView)
    ensures v.NoHistory? <==> dir.None?
    ensures v.NoImages? <==> dir.Some? && ImageFiles(dir.value) == []
    ensures v.Listing? ==> dir.Some? && v.total == |v.entries| == |ImageFiles(dir.value)| > 0
    ensures v.Listing? ==> NonIncreasing(FilesOf(v.entries))
    ensures v.Listing? ==> multiset(FilesOf(v.entries)) == multiset(ImageFiles(dir.value))
    ensures v.Listing? ==> forall k :: 0 <= k < |v.entries| ==> v.entries[k].time == TimeLabel(v.entries[k].file)
  {
    match dir
    case None => NoHistory
    case Some(names) =>
      var files := ImageFiles(names);
      if files == [] then NoImages else ListingOf(files)
  }

  /** show_history_tab: filter, sort in place, then label every file. */
  method ShowHistory(dir: Option<seq<string>>) returns (v: HistoryView)
    ensures v == HistoryOf(dir)
  {
    if dir.None? {
      return NoHistory;
    }
    var files := ImageFiles(dir.value);
    if files == [] {
      return NoImages;
    }
    var a := new string[|files|](k requires 0 <= k < |files| => files[k]);
    assert a[..] == files;
    SortReverse(a);
    var entries := LabelFiles(a);
    v := Listing(a.Length, entries);
  }

  /** The display loop: one entry per file, in order, titled with the file's decoded time. */
  method LabelFiles(a: array<string>) returns (entries: seq<Entry>)
    ensures entries == Labelled(a[..])
  {
    entries := [];
    var i := 0;
    while i < a.Length
      invariant 0 <= i <= a.Length
      invariant |entries| == i
      invariant forall k :: 0 <= k < i ==> entries[k] == Entry(a[k], TimeLabel(a[k]))
    {
      var file := a[i];
      var time := TimeLabel(file);
      entries := entries + [Entry(file, time)];
      i := i + 1;
    }
  }

  /** In a listing, a saved detection never comes after an older one. */
  lemma ListingNewestFirst(dir: Option<seq<string>>, tj: Timestamp, tk: Timestamp)
    requires ValidTimestamp(tj) && ValidTimestamp(tk)
    ensures var v := HistoryOf(dir);
      v.Listing? ==>
        forall j, k ::
          (0 <= j < k < |v.entries| && v.entries[j].file == DetectionName(tj) && v.entries[k].file == DetectionName(tk))
          ==> NotAfter(tk, tj)
  {
    var v := HistoryOf(dir);
    if v.Listing? {
      var files := FilesOf(v.entries);
      forall j, k | 0 <= j < k < |v.entries| && v.entries[j].file == DetectionName(tj)
                    && v.entries[k].file == DetectionName(tk)
        ensures NotAfter(tk, tj)
      {
        assert LexLe(files[k], files[j]);
        NameOrderIsTimeOrder(tk, tj);
      }
    }
  }

  /** Two saved detections are listed newer first, each with its own minute. */
  lemma TwoDetectionsListed(older: Timestamp, newer: Timestamp)
    requires ValidTimestamp(older) && ValidTimestamp(newer) && NotAfter(older, newer)
    ensures HistoryOf(Some([DetectionName(older), DetectionName(newer)]))
         == Listing(2, [Entry(DetectionName(newer), DisplayLabel(newer)), Entry(DetectionName(older), DisplayLabel(older))])
  {
    var o, n := DetectionName(older), DetectionName(newer);
    SavedNameIsImage(older);
    SavedNameIsImage(newer);
    NameOrderIsTimeOrder(older, newer);
    ListingOfTwo(o, n);
    DecodeDetectionName(older);
    DecodeDetectionName(newer);
    LabelledPair(n, o);
  }

  lemma LabelledPair(a: string, b: string)
    ensures Labelled([a, b]) == [Entry(a, TimeLabel(a)), Entry(b, TimeLabel(b))]
  {
    assert [a, b][1..] == [b] && [b][1..] == [];
  }

  lemma ListingOfTwo(o: string, n: string)
    requires IsImageName(o) && IsImageName(n) && LexLe(o, n)
    ensures HistoryOf(Some([o, n])) == Listing(2, Labelled([n, o]))
  {
    assert ImageFiles([o, n]) == [o, n] by {
      assert [o, n][1..] == [n] && [n][1..] == [];
    }
    PairSorted(o, n);
  }

  lemma SavedNameIsImage(t: Timestamp)
    requires ValidTimestamp(t)
    ensures IsImageName(DetectionName(t))
  {
    assert Lower(".jpg") == ".jpg" by {
      assert ".jpg"[1..] == "jpg" && "jpg"[1..] == "pg" && "pg"[1..] == "g" && "g"[1..] == "";
    }
    ExtensionCaseIgnored("detection_" + Compact(t), ".jpg");
  }

  lemma PairSorted(o: string, n: string)
    requires LexLe(o, n)
    ensures SortDescending([o, n]) == [n, o]
  {
    assert NonIncreasing([n, o]);
    assert multiset([n, o]) == multiset([o, n]);
    SortDescendingCharacterized([o, n], [n, o]);
  }

  /** The listing example: of two January and March detections, March comes first. */
  lemma ListingExample(dir: Option<seq<string>>)
    requires dir == Some(["detection_20250101_090000.jpg", "detection_20250315_120000.jpg"])
    ensures HistoryOf(dir) == Listing(2, [Entry("detection_20250315_120000.jpg", "2025-03-15 12:00"),
                                          Entry("detection_20250101_090000.jpg", "2025-01-01 09:00")])
  {
    var jan, mar := Timestamp(2025, 1, 1, 9, 0, 0), Timestamp(2025, 3, 15, 12, 0, 0);
    ExampleText(jan);
    MarchText(mar);
    TwoDetectionsListed(jan, mar);
  }

  lemma MarchText(t: Timestamp)
    requires t == Timestamp(2025, 3, 15, 12, 0, 0)
    ensures ValidTimestamp(t)
    ensures DetectionName(t) == "detection_20250315_120000.jpg"
    ensures DisplayLabel(t) == "2025-03-15 12:00"
  {
    assert Compact(t) == "20250315_120000";
  }

  /** The example of the naming convention: fields separated, seconds dropped. */
  lemma DecodeExample(f: string)
    requires f == "detection_20250101_090000.jpg"
    ensures TimeLabel(f) == "2025-01-01 09:00"
  {
    var t := Timestamp(2025, 1, 1, 9, 0, 0);
    ExampleText(t);
    DecodeDetectionName(t);
  }

  lemma ExampleText(t: Timestamp)
    requires t == Timestamp(2025, 1, 1, 9, 0, 0)
    ensures ValidTimestamp(t)
    ensures DetectionName(t) == "detection_20250101_090000.jpg"
    ensures DisplayLabel(t) == "2025-01-01 09:00"
  {
    assert Compact(t) == "20250101_090000";
  }
}
