/** The rolling log file of src/log/logger_impl.cpp.  The log directory is a map from file name to
    content; file operations succeed. */
module LogVolumes {
  import opened Machine
  import opened Text

  // ----- names and numbers ----------------------------------------------------------------------

  function Accumulate(s: string, acc: nat): nat {
    if s == "" || !IsDigit(s[0]) then acc else Accumulate(s[1..], 10 * acc + (s[0] as int - '0' as int))
  }

  /** atoi: blanks, a sign, digits; 0 when there are none. */
  function Atoi(s: string): int {
    if s != "" && IsSpace(s[0]) then Atoi(s[1..])
    else if s != "" && s[0] == '-' then 0 - Accumulate(s[1..], 0)
    else if s != "" && s[0] == '+' then Accumulate(s[1..], 0)
    else Accumulate(s, 0)
  }

  function Base(prefix: string): string {
    prefix + ".log"
  }

  function VolumeName(base: string, k: nat): string {
    if k == 0 then base else base + "." + Itoa(k)
  }

  /** GetIndexFromVolume: everything after the name and one more character is the number. */
  function IndexOf(base: string, file: string): int {
    if base <= file then
      var idx := file[|base|..];
      if idx == "" then 0 else Atoi(idx[1..])
    else -1
  }

  /** The number LogFilenameCompare gives a name.  The blanks str_trim would remove make no difference
      to atoi. */
  function SortKey(file: string): int {
    var v := Pieces(file, ".");
    if v == [] then 0
    else if v[|v| - 1] == "gz" && |v| > 1 then Atoi(v[|v| - 2])
    else Atoi(v[|v| - 1])
  }

  lemma {:induction false} AccumulateSnoc(s: string, d: char, acc: nat)
    requires AllDigits(s) && IsDigit(d)
    ensures Accumulate(s + [d], acc) == 10 * Accumulate(s, acc) + (d as int - '0' as int)
  {
    if s == "" {
      assert (s + [d])[1..] == "";
    } else {
      assert (s + [d])[1..] == s[1..] + [d];
      AccumulateSnoc(s[1..], d, 10 * acc + (s[0] as int - '0' as int));
    }
  }

  lemma {:induction false} AccumulateItoa(n: nat)
    ensures Accumulate(Itoa(n), 0) == n
  {
    if n >= 10 {
      AccumulateItoa(n / 10);
      AccumulateSnoc(Itoa(n / 10), Digit(n % 10), 0);
    } else {
      assert [Digit(n)][1..] == "";
    }
  }

  lemma AtoiItoa(n: nat)
    ensures Atoi(Itoa(n)) == n
  {
    AccumulateItoa(n);
    assert IsDigit(Itoa(n)[0]);
  }

  lemma IndexOfVolume(base: string, k: nat)
    ensures IndexOf(base, VolumeName(base, k)) == k
  {
    if k > 0 {
      var name := VolumeName(base, k);
      assert name[..|base|] == base && name[|base|..] == "." + Itoa(k);
      assert ("." + Itoa(k))[1..] == Itoa(k);
      AtoiItoa(k);
    }
  }

  /** The newest volume is prefix.log; an older one has a dot and its plain decimal number behind that. */
  lemma VolumeText(prefix: string, k: nat) returns (number: string)
    ensures VolumeName(Base(prefix), k) == prefix + (if k == 0 then ".log" else ".log." + number)
    ensures AllDigits(number) && Decimal(number) == k && ("0" <= number ==> k == 0)
  {
    number := Itoa(k);
    ItoaExactly(k);
    assert prefix + ".log" + "." + number == prefix + (".log." + number);
  }

  lemma OnePiece(t: string)
    requires t != "" && forall i :: 0 <= i < |t| ==> t[i] != '.'
    ensures Pieces(t, ".") == [t]
  {
    forall i: nat | i <= |t| ensures !OccursAt(t, ".", i) {
      OccursOne(t, ".", i);
    }
    FindNothing(t, ".", 0);
  }

  lemma FirstDot(s: string, t: string)
    ensures var r := Find(s + "." + t, ".", 0); r.Some? && r.value <= |s|
  {
    var whole := s + "." + t;
    assert whole[|s|] == '.';
    OccursOne(whole, ".", |s|);
    FindFirst(whole, ".", 0);
  }

  /** Whatever precedes the last dot, a text without dots is the last piece. */
  lemma {:induction false} LastOf(s: string, t: string)
    requires t != "" && forall i :: 0 <= i < |t| ==> t[i] != '.'
    ensures var v := Pieces(s + "." + t, "."); v != [] && v[|v| - 1] == t
    decreases |s|
  {
    var whole := s + "." + t;
    FirstDot(s, t);
    var r := Find(whole, ".", 0).value;
    PiecesUnfold(whole, ".", r);
    if r < |s| {
      assert whole[r + 1..] == s[r + 1..] + "." + t;
      LastOf(s[r + 1..], t);
    } else {
      assert whole[r + 1..] == t;
      OnePiece(t);
    }
  }

  lemma KeyOfLast(s: string, t: string)
    requires t != "" && t[0] != 'g' && forall i :: 0 <= i < |t| ==> t[i] != '.'
    ensures SortKey(s + "." + t) == Atoi(t)
  {
    LastOf(s, t);
  }

  lemma BaseKey(prefix: string)
    ensures SortKey(prefix + ".log") == 0
  {
    assert prefix + ".log" == prefix + "." + "log";
    KeyOfLast(prefix, "log");
  }

  lemma KeyOfVolume(prefix: string, k: nat)
    ensures VolumeName(Base(prefix), k) != "" && SortKey(VolumeName(Base(prefix), k)) == k
  {
    if k == 0 {
      BaseKey(prefix);
    } else {
      AtoiItoa(k);
      assert forall i :: 0 <= i < |Itoa(k)| ==> IsDigit(Itoa(k)[i]);
      KeyOfLast(Base(prefix), Itoa(k));
    }
  }

  /** The naming scheme as the appender uses it: the name of a volume, the number GetIndexFromVolume
      finds in a name and the number LogFilenameCompare sorts it by. */
  datatype Naming = Naming(name: nat -> string, index: string -> int, key: string -> int)

  function NamesOf(prefix: string): Naming {
    Naming((k: nat) => VolumeName(Base(prefix), k), f => IndexOf(Base(prefix), f), f => SortKey(f))
  }

  /** Names can be read back, and sort by volume number. */
  ghost predicate Sound(n: Naming) {
    forall k: nat :: n.name(k) != "" && n.index(n.name(k)) == k && n.key(n.name(k)) == k
  }

  lemma NamesSound(prefix: string)
    ensures Sound(NamesOf(prefix))
  {
    var n := NamesOf(prefix);
    forall k: nat ensures n.name(k) != "" && n.index(n.name(k)) == k && n.key(n.name(k)) == k {
      IndexOfVolume(Base(prefix), k);
      KeyOfVolume(prefix, k);
    }
  }

  predicate LogFilenameCompare(n: Naming, s1: string, s2: string) {
    s1 != "" && s2 != "" && n.key(s1) < n.key(s2)
  }

  // ----- what a roll means ------------------------------------------------------------------------

  type Volumes = map<nat, string>

  /** What one roll does when `count` volumes are kept: volumes 0 .. count-2 one older, volume count-1
      gone, an empty volume 0.  Volumes numbered `count` and above, which only an earlier run with a
      larger count can have left, stay. */
  function Shift(v: Volumes, count: nat): Volumes {
    Older(v, count) + map k: nat | k < count && Filled(v, k) :: if k == 0 then "" else v[k - 1]
  }

  function Rolled(full: bool, v: Volumes, count: nat): Volumes {
    if full then Shift(v, count) else v
  }

  predicate Filled(v: Volumes, k: nat) {
    k == 0 || k - 1 in v
  }

  function Older(v: Volumes, count: nat): Volumes {
    map k | k in v && k >= count :: v[k]
  }

  /** Renaming volume k to k + 1 for k = top-1 down to b. */
  function Half(v: Volumes, b: nat, top: nat): Volumes
    decreases top - b
  {
    if b >= top then v
    else
      var h := Half(v, b + 1, top);
      if b in h then (h - {b})[b + 1 := h[b]] else h
  }

  /** Where those renamings leave volume `k`: nothing below `b` or above `top` moves. */
  predicate Place(v: Volumes, k: nat, b: nat, top: nat) {
    if k < b || k > top then k in v else k > b && k - 1 in v
  }

  lemma {:induction false} HalfIs(v: Volumes, b: nat, top: nat, k: nat)
    requires top !in v && b <= top
    ensures k in Half(v, b, top) <==> Place(v, k, b, top)
    ensures k in Half(v, b, top) ==> Half(v, b, top)[k] == v[if b < k <= top then k - 1 else k]
    decreases top - b
  {
    if b < top {
      HalfIs(v, b + 1, top, k);
      HalfIs(v, b + 1, top, b);
    }
  }

  lemma {:induction false} SkipAbsent(v: Volumes, k: nat, b: nat, top: nat)
    requires top !in v && k <= b <= top && forall m :: m in v ==> m < k || m >= b
    ensures Half(v, k, top) == Half(v, b, top)
    decreases b - k
  {
    if k < b {
      HalfIs(v, k + 1, top, k);
      SkipAbsent(v, k + 1, b, top);
    }
  }

  /** The largest volume below `b` is the next to be renamed, and its new name is not taken. */
  lemma NextHalf(v: Volumes, k: nat, b: nat, top: nat)
    requires top !in v && k in v && k < b <= top && forall m :: m in v ==> m <= k || m >= b
    ensures var h := Half(v, b, top); k in h && k + 1 !in h && Half(v, k, top) == (h - {k})[k + 1 := h[k]]
  {
    SkipAbsent(v, k + 1, b, top);
    HalfIs(v, k + 1, top, k);
    HalfIs(v, k + 1, top, k + 1);
  }

  function Content(v: Volumes, k: nat): string {
    if k in v then v[k] else ""
  }

  /** The text kept in volumes 0 .. n-1, oldest first. */
  function History(v: Volumes, n: nat): string {
    if n == 0 then "" else Content(v, n - 1) + History(v, n - 1)
  }

  lemma {:induction false} HistoryShift(v: Volumes, w: Volumes, n: nat)
    requires 0 in w && w[0] == "" && forall k: nat :: k < n ==> Content(w, k + 1) == Content(v, k)
    ensures History(w, n + 1) == History(v, n)
  {
    if n > 0 {
      HistoryShift(v, w, n - 1);
      assert Content(w, n - 1 + 1) == Content(v, n - 1);
    } else {
      assert History(w, 1) == Content(w, 0) + History(w, 0);
    }
  }

  lemma ShiftedContent(v: Volumes, count: nat, k: nat)
    requires k + 1 < count
    ensures Content(Shift(v, count), k + 1) == Content(v, k)
  {
    assert Filled(v, k + 1) <==> k in v;
  }

  /** A roll loses the text of the oldest volume and nothing else. */
  lemma RollKeepsHistory(v: Volumes, count: nat)
    requires count > 0
    ensures Content(v, count - 1) + History(Shift(v, count), count) == History(v, count)
  {
    forall k: nat | k < count - 1 ensures Content(Shift(v, count), k + 1) == Content(v, k) {
      ShiftedContent(v, count, k);
    }
    assert Filled(v, 0);
    HistoryShift(v, Shift(v, count), count - 1);
  }

  lemma {:induction false} HistoryAppend(v: Volumes, text: string, n: nat)
    requires 0 in v && n > 0
    ensures History(v[0 := v[0] + text], n) == History(v, n) + text
  {
    if n == 1 {
      assert History(v, 0) == "";
      assert History(v[0 := v[0] + text], 1) == v[0] + text;
    } else {
      HistoryAppend(v, text, n - 1);
    }
  }

  // ----- what a whole run means -------------------------------------------------------------------

  /** The text up to the first NUL, as strlen and operator<< of a C string see it. */
  function CStr(s: string): string {
    if s == "" || s[0] == '\0' then "" else [s[0]] + CStr(s[1..])
  }

  /** The volumes, what was written to volume 0 since it was opened, and the text of the volumes that
      were deleted or emptied, oldest first. */
  datatype Log = Log(volumes: Volumes, current: nat, dropped: string)

  function Opened(found: Volumes): Log {
    Log(if 0 in found then found else found[0 := ""], 0, "")
  }

  predicate Full(l: Log, size: nat) {
    size > 0 && l.current >= size
  }

  function Appended(l: Log, count: nat, size: nat, log: string): Log
    requires count > 0
  {
    var full := Full(l, size);
    var kept := Rolled(full, l.volumes, count);
    Log(kept[0 := Content(kept, 0) + CStr(log)], (if full then 0 else l.current) + |CStr(log)|,
        l.dropped + if full then Content(l.volumes, count - 1) else "")
  }

  /** A log of `count` volumes opened on the volumes `found`, after `logs`. */
  function After(found: Volumes, count: nat, size: nat, logs: seq<string>): Log
    requires count > 0
  {
    if logs == [] then Opened(found)
    else Appended(After(found, count, size, logs[..|logs| - 1]), count, size, logs[|logs| - 1])
  }

  function Rolls(found: Volumes, count: nat, size: nat, logs: seq<string>): nat
    requires count > 0
  {
    if logs == [] then 0
    else
      var before := logs[..|logs| - 1];
      Rolls(found, count, size, before) + if Full(After(found, count, size, before), size) then 1 else 0
  }

  function Texts(logs: seq<string>): string {
    if logs == [] then "" else Texts(logs[..|logs| - 1]) + CStr(logs[|logs| - 1])
  }

  lemma AppendKeeps(l: Log, count: nat, size: nat, log: string)
    requires count > 0 && 0 in l.volumes
    ensures var m := Appended(l, count, size, log);
            && 0 in m.volumes && Older(m.volumes, count) == Older(l.volumes, count)
            && m.dropped + History(m.volumes, count) == l.dropped + History(l.volumes, count) + CStr(log)
  {
    var full := Full(l, size);
    var kept := Rolled(full, l.volumes, count);
    RollKeepsText(full, l.volumes, count);
    HistoryAppend(kept, CStr(log), count);
    OlderUpdated(kept, Content(kept, 0) + CStr(log), count);
    var gone := if full then Content(l.volumes, count - 1) else "";
    Regroup(l.dropped + gone, History(kept, count), CStr(log));
    Regroup(l.dropped, gone, History(kept, count));
  }

  lemma RollKeepsText(full: bool, v: Volumes, count: nat)
    requires count > 0 && 0 in v
    ensures var kept := Rolled(full, v, count);
            && 0 in kept && Older(kept, count) == Older(v, count)
            && (if full then Content(v, count - 1) else "") + History(kept, count) == History(v, count)
  {
    if full {
      assert Filled(v, 0);
      OlderShifted(v, count);
      RollKeepsHistory(v, count);
    } else {
      assert "" + History(v, count) == History(v, count);
    }
  }

  /** Whatever is appended: the text that left with deleted volumes, followed by the text of volumes
      count-1 .. 0, is what those held before followed by everything appended; and volumes numbered
      `count` and above are never touched. */
  lemma {:induction false} RunKeepsText(found: Volumes, count: nat, size: nat, logs: seq<string>)
    requires count > 0
    ensures var l := After(found, count, size, logs);
            && 0 in l.volumes && Older(l.volumes, count) == Older(found, count)
            && l.dropped + History(l.volumes, count) == History(found, count) + Texts(logs)
  {
    if logs == [] {
      OpenedHistory(found, count);
      OlderUpdated(found, "", count);
    } else {
      var before := logs[..|logs| - 1];
      RunKeepsText(found, count, size, before);
      AppendKeeps(After(found, count, size, before), count, size, logs[|logs| - 1]);
      Regroup(History(found, count), Texts(before), CStr(logs[|logs| - 1]));
    }
  }

  lemma OlderUpdated(v: Volumes, text: string, count: nat)
    requires count > 0
    ensures Older(v[0 := text], count) == Older(v, count)
  {
  }

  lemma OlderShifted(v: Volumes, count: nat)
    ensures Older(Shift(v, count), count) == Older(v, count)
  {
  }

  lemma {:induction false} OpenedHistory(found: Volumes, n: nat)
    ensures History(if 0 in found then found else found[0 := ""], n) == History(found, n)
  {
    if n > 0 {
      OpenedHistory(found, n - 1);
    }
  }

  // ----- how many volumes there are ---------------------------------------------------------------

  /** Every roll fills one more of the places 0 .. count-1. */
  lemma {:induction false} RollsFill(found: Volumes, count: nat, size: nat, logs: seq<string>, k: nat)
    requires 0 < count && k < count && k <= Rolls(found, count, size, logs)
    ensures k in After(found, count, size, logs).volumes
  {
    if logs != [] {
      var before := logs[..|logs| - 1];
      var l := After(found, count, size, before);
      if Full(l, size) {
        if k > 0 { RollsFill(found, count, size, before, k - 1); }
        assert Filled(l.volumes, k);
      } else {
        RollsFill(found, count, size, before, k);
      }
    }
  }

  predicate NoneOlder(v: Volumes, count: nat) {
    forall k :: k in v ==> k < count
  }

  lemma KeysSplit(v: Volumes, count: nat)
    ensures v.Keys == v.Keys * Range(count) + Older(v, count).Keys
    ensures v.Keys * Range(count) !! Older(v, count).Keys
  {
    RangeSize(count);
  }

  lemma VolumesSplit(v: Volumes, count: nat)
    ensures |v| == |v.Keys * Range(count)| + |Older(v, count)| && |v.Keys * Range(count)| <= count
  {
    KeysSplit(v, count);
    RangeSize(count);
    SubsetSize(v.Keys * Range(count), Range(count));
  }

  /** One append: a volume that has its size moves up with all before it, and the text starts a new one;
      otherwise the text goes behind what the newest volume holds. */
  lemma AppendExactly(l: Log, count: nat, size: nat, log: string)
    requires count > 0 && 0 in l.volumes
    ensures var m, text := Appended(l, count, size, log), CStr(log);
            if size > 0 && l.current >= size then
              && 0 in m.volumes && m.volumes[0] == text && m.current == |text|
              && (forall k: nat :: k + 1 < count ==> Content(m.volumes, k + 1) == Content(l.volumes, k))
            else m.volumes == l.volumes[0 := l.volumes[0] + text] && m.current == l.current + |text|
  {
    forall k: nat | k + 1 < count ensures Content(Shift(l.volumes, count), k + 1) == Content(l.volumes, k) {
      ShiftedContent(l.volumes, count, k);
    }
    assert Filled(l.volumes, 0);
    assert "" + CStr(log) == CStr(log);
  }

  /** What a log that began with an empty directory holds after any texts: volumes behind the newest have
      reached their size, and the newest had not before the last text. */
  predicate Measured(l: Log, count: nat, size: nat, last: nat) {
    && 0 in l.volumes && l.current == |l.volumes[0]| && (size > 0 ==> |l.volumes[0]| < size + last)
    && forall k: nat :: 0 < k < count && k in l.volumes ==> 0 < size <= |l.volumes[k]|
  }

  lemma AppendMeasured(l: Log, count: nat, size: nat, log: string, last: nat)
    requires count > 0 && Measured(l, count, size, last)
    ensures Measured(Appended(l, count, size, log), count, size, |CStr(log)|)
  {
    var m := Appended(l, count, size, log);
    AppendExactly(l, count, size, log);
    if size > 0 && l.current >= size {
      forall k: nat | 0 < k < count && k in m.volumes ensures size <= |m.volumes[k]| {
        assert Content(m.volumes, k - 1 + 1) == Content(l.volumes, k - 1);
        assert Filled(l.volumes, k);
      }
    }
  }

  /** A volume is left exactly when it has reached its size: in every run on an empty directory the older
      volumes have it, and the newest did not before the last text was added. */
  lemma {:induction false} RolledAreFull(count: nat, size: nat, logs: seq<string>)
    requires count > 0
    ensures Measured(After(map[], count, size, logs), count, size, if logs == [] then 1 else |CStr(logs[|logs| - 1])|)
  {
    if logs != [] {
      var before := logs[..|logs| - 1];
      RolledAreFull(count, size, before);
      AppendMeasured(After(map[], count, size, before), count, size, logs[|logs| - 1],
                     if before == [] then 1 else |CStr(before[|before| - 1])|);
    }
  }

  /** Never more volumes than `count` and those that are left alone; exactly so many once there were
      count - 1 rolls. */
  lemma VolumesCounted(found: Volumes, count: nat, size: nat, logs: seq<string>)
    requires count > 0
    ensures var v := After(found, count, size, logs).volumes;
            && |v| <= count + |Older(found, count)|
            && (Rolls(found, count, size, logs) + 1 >= count ==> |v| == count + |Older(found, count)|)
  {
    var v := After(found, count, size, logs).volumes;
    RunKeepsText(found, count, size, logs);
    VolumesSplit(v, count);
    RangeSize(count);
    if Rolls(found, count, size, logs) + 1 >= count {
      forall k: nat | k < count ensures k in v { RollsFill(found, count, size, logs, k); }
      assert v.Keys * Range(count) == Range(count);
    }
  }

  function Copies(n: nat): string {
    seq(n, _ => 'x')
  }

  lemma {:induction false} CStrOfCopies(n: nat)
    ensures CStr(Copies(n)) == Copies(n)
  {
    if n > 0 {
      CStrOfCopies(n - 1);
      assert Copies(n)[1..] == Copies(n - 1);
    }
  }

  /** Texts of the volume size, each filling a volume. */
  function Fillers(size: nat, n: nat): (logs: seq<string>)
    ensures |logs| == n
  {
    if n == 0 then [] else Fillers(size, n - 1) + [Copies(size)]
  }

  lemma {:induction false} FillersRoll(found: Volumes, count: nat, size: nat, n: nat)
    requires count > 0 && size > 0
    ensures Rolls(found, count, size, Fillers(size, n)) == if n == 0 then 0 else n - 1
    ensures After(found, count, size, Fillers(size, n)).current == if n == 0 then 0 else size
  {
    if n > 0 {
      var logs := Fillers(size, n);
      FillersRoll(found, count, size, n - 1);
      assert logs[..|logs| - 1] == Fillers(size, n - 1);
      CStrOfCopies(size);
    }
  }

  /** No run of a log that rolls leaves more than `count` volumes exactly when the earlier runs left none
      numbered `count` or above. */
  lemma BoundExactly(found: Volumes, count: nat, size: nat)
    requires count > 0 && size > 0
    ensures (forall logs :: |After(found, count, size, logs).volumes| <= count) <==> NoneOlder(found, count)
  {
    if NoneOlder(found, count) {
      forall logs ensures |After(found, count, size, logs).volumes| <= count {
        VolumesCounted(found, count, size, logs);
        assert Older(found, count) == map[];
      }
    } else {
      var k :| k in found && k >= count;
      var logs := Fillers(size, count);
      FillersRoll(found, count, size, count);
      VolumesCounted(found, count, size, logs);
      assert k in Older(found, count).Keys;
      assert |Older(found, count)| == |Older(found, count).Keys| > 0;
      assert |After(found, count, size, logs).volumes| > count;
    }
  }

  // ----- volumes and files ------------------------------------------------------------------------

  /** The directory that holds exactly the volumes `v` of the log. */
  function Layout(n: Naming, v: Volumes): map<string, string> {
    map f | f in (set k | k in v :: n.name(k)) :: if n.index(f) >= 0 && n.index(f) in v then v[n.index(f)] else ""
  }

  lemma LayoutAt(n: Naming, v: Volumes, k: nat)
    requires Sound(n)
    ensures n.name(k) in Layout(n, v) <==> k in v
    ensures k in v ==> Layout(n, v)[n.name(k)] == v[k]
  {
    assert n.index(n.name(k)) == k;
    if n.name(k) in Layout(n, v) {
      var j :| j in v && n.name(k) == n.name(j);
      assert n.index(n.name(j)) == j;
    }
  }

  lemma LayoutFile(n: Naming, v: Volumes, f: string)
    requires Sound(n) && f in Layout(n, v)
    ensures f != "" && n.index(f) >= 0 && n.index(f) in v && f == n.name(n.index(f)) && n.key(f) == n.index(f)
  {
    var j :| j in v && f == n.name(j);
    assert n.index(n.name(j)) == j;
  }

  lemma SetLayout(n: Naming, v: Volumes, k: nat, text: string)
    requires Sound(n)
    ensures Layout(n, v[k := text]) == Layout(n, v)[n.name(k) := text]
  {
    var w, l := v[k := text], Layout(n, v)[n.name(k) := text];
    forall f ensures f in Layout(n, w) <==> f in l {
      if f in Layout(n, w) { LayoutFile(n, w, f); LayoutAt(n, v, n.index(f)); }
      if f in Layout(n, v) { LayoutFile(n, v, f); LayoutAt(n, w, n.index(f)); }
      LayoutAt(n, w, k);
    }
    forall f | f in l ensures Layout(n, w)[f] == l[f] {
      LayoutFile(n, w, f);
      LayoutAt(n, w, n.index(f));
      LayoutAt(n, v, n.index(f));
      assert n.index(n.name(k)) == k;
    }
  }

  lemma RemoveLayout(n: Naming, v: Volumes, k: nat)
    requires Sound(n)
    ensures Layout(n, v - {k}) == Layout(n, v) - {n.name(k)}
  {
    var w, l := v - {k}, Layout(n, v) - {n.name(k)};
    assert n.index(n.name(k)) == k;
    forall f ensures f in Layout(n, w) <==> f in l {
      if f in Layout(n, w) { LayoutFile(n, w, f); LayoutAt(n, v, n.index(f)); }
      if f in Layout(n, v) { LayoutFile(n, v, f); LayoutAt(n, w, n.index(f)); }
    }
    forall f | f in l ensures Layout(n, w)[f] == l[f] {
      LayoutFile(n, w, f);
      LayoutAt(n, w, n.index(f));
      LayoutAt(n, v, n.index(f));
    }
  }

  /** A directory has one file a volume. */
  lemma {:induction false} LayoutSize(n: Naming, v: Volumes)
    requires Sound(n)
    ensures |Layout(n, v)| == |v|
    decreases |v|
  {
    if v.Keys == {} {
      assert Layout(n, v).Keys == {};
    } else {
      var k :| k in v.Keys;
      LayoutAt(n, v, k);
      RemoveLayout(n, v, k);
      assert (v - {k}).Keys == v.Keys - {k} && |(v - {k}).Keys| == |v - {k}|;
      LayoutSize(n, v - {k});
      assert (Layout(n, v) - {n.name(k)}).Keys == Layout(n, v).Keys - {n.name(k)};
    }
  }

  /** `ks` is the volume numbers of `v`, each once, largest first. */
  predicate Descending(ks: seq<nat>, v: Volumes) {
    && (forall i, j :: 0 <= i < j < |ks| ==> ks[i] > ks[j])
    && (forall i :: 0 <= i < |ks| ==> ks[i] in v)
    && (forall k :: k in v ==> k in ks)
  }

  /** A sorted listing of the directory lists the volumes largest number first. */
  lemma ListingDescends(n: Naming, v: Volumes, files: seq<string>) returns (ks: seq<nat>)
    requires Sound(n)
    requires forall f :: f in files <==> f in Layout(n, v)
    requires forall i, j :: 0 <= i < j < |files| ==> files[i] != files[j] && !LogFilenameCompare(n, files[i], files[j])
    ensures |ks| == |files| && Descending(ks, v)
    ensures forall i :: 0 <= i < |ks| ==> ks[i] == n.index(files[i]) && files[i] == n.name(ks[i])
  {
    forall i | 0 <= i < |files|
      ensures files[i] != "" && n.index(files[i]) >= 0 && n.index(files[i]) in v
      ensures files[i] == n.name(n.index(files[i])) && n.key(files[i]) == n.index(files[i])
    {
      LayoutFile(n, v, files[i]);
    }
    ks := seq(|files|, i requires 0 <= i < |files| => n.index(files[i]));
    forall k | k in v ensures k in ks {
      LayoutAt(n, v, k);
      var i :| 0 <= i < |files| && files[i] == n.name(k);
      assert n.index(n.name(k)) == k == ks[i];
    }
  }

  lemma NextLower(ks: seq<nat>, v: Volumes, i: nat, m: nat)
    requires Descending(ks, v) && i < |ks| && m in v
    ensures m <= ks[i] || (i > 0 && m >= ks[i - 1])
  {
    var j :| 0 <= j < |ks| && ks[j] == m;
  }

  // ----- the appender -----------------------------------------------------------------------------

  /** list_dir in some order and std::sort on the reversed range. */
  method SortedListing(n: Naming, names: set<string>) returns (v: seq<string>)
    requires "" !in names
    ensures forall f :: f in v <==> f in names
    ensures forall i, j :: 0 <= i < j < |v| ==> v[i] != v[j] && !LogFilenameCompare(n, v[i], v[j])
  {
    v := [];
    var rest := names;
    while rest != {}
      invariant rest <= names && forall f :: f in v <==> f in names && f !in rest
      invariant forall i, j :: 0 <= i < j < |v| ==> v[i] != v[j] && !LogFilenameCompare(n, v[i], v[j])
      decreases |rest|
    {
      var f :| f in rest;
      rest := rest - {f};
      var p := 0;
      while p < |v| && !LogFilenameCompare(n, v[p], f)
        invariant p <= |v| && forall i :: 0 <= i < p ==> !LogFilenameCompare(n, v[i], f)
      {
        p := p + 1;
      }
      v := v[..p] + [f] + v[p..];
    }
  }

  /** `volumes` is the directory seen by volume number; `dropped` collects the text of the volumes that
      were deleted or truncated, oldest first. */
  class LogAppenderFile {
    const naming: Naming
    const volumeCount: nat
    const volumeSize: nat
    var dir: map<string, string>
    var current: nat
    var volumeIndex: nat
    ghost var volumes: Volumes
    ghost var dropped: string

    ghost function Now(): Log
      reads this
    {
      Log(volumes, current, dropped)
    }

    ghost predicate Valid()
      reads this
    {
      && volumeCount > 0 && Sound(naming) && dir == Layout(naming, volumes)
      && (forall k :: k in volumes && k < volumeCount ==> k <= volumeIndex)
      && 0 in volumes
    }

    method Rename(src: string, dst: string)
      requires src in dir
      modifies this`dir
      ensures dir == if src == dst then old(dir) else (old(dir) - {src})[dst := old(dir)[src]]
    {
      if src != dst {
        dir := (dir - {src})[dst := dir[src]];
      }
    }

    /** One step of the renaming loop: volume k becomes volume k + 1, which does not exist. */
    method Advance(k: nat)
      requires Sound(naming) && dir == Layout(naming, volumes) && k in volumes && k + 1 !in volumes
      modifies this`dir, this`volumes
      ensures dir == Layout(naming, volumes)
      ensures volumes == (old(volumes) - {k})[k + 1 := old(volumes)[k]]
    {
      var src, dst := naming.name(k), naming.name(k + 1);
      assert src != dst by { assert naming.index(src) == k && naming.index(dst) == k + 1; }
      LayoutAt(naming, volumes, k);
      RemoveLayout(naming, volumes, k);
      SetLayout(naming, volumes - {k}, k + 1, volumes[k]);
      Rename(src, dst);
      volumes := (volumes - {k})[k + 1 := volumes[k]];
    }

    /** One turn of the renaming loop, for the largest volume not yet looked at. */
    method RenameNext(file: string, ghost before: Volumes, ghost b: nat, ghost k: nat)
      requires Sound(naming) && dir == Layout(naming, volumes)
      requires volumeCount > 1 && volumeCount - 1 !in before && volumes == Half(before, b, volumeCount - 1)
      requires naming.index(file) == k && k in before && b <= volumeCount - 1
      requires k < volumeCount - 1 ==> k < b && forall m :: m in before ==> m <= k || m >= b
      modifies this`dir, this`volumes
      ensures dir == Layout(naming, volumes)
      ensures volumes == Half(before, if k < volumeCount - 1 then k else b, volumeCount - 1)
    {
      var at := naming.index(file);
      if at < volumeCount - 1 && at >= 0 {
        NextHalf(before, k, b, volumeCount - 1);
        Advance(at);
      }
    }

    /** The renaming loop, on a directory without volume `volumeCount - 1`. */
    method RenameAll()
      requires Sound(naming) && dir == Layout(naming, volumes)
      requires volumeCount > 1 && volumeCount - 1 !in volumes
      modifies this`dir, this`volumes
      ensures dir == Layout(naming, volumes)
      ensures volumes == Half(old(volumes), 0, volumeCount - 1)
    {
      ghost var before := volumes;
      ghost var top: nat := volumeCount - 1;
      forall f | f in dir ensures f != "" { LayoutFile(naming, volumes, f); }
      var v := SortedListing(naming, dir.Keys);
      ghost var ks := ListingDescends(naming, volumes, v);
      for i := 0 to |v|
        invariant dir == Layout(naming, volumes) && volumes == Half(before, Bound(ks, i, top), top)
      {
        BetweenNothing(ks, before, i, top);
        RenameNext(v[i], before, Bound(ks, i, top), ks[i]);
      }
      AllRenamed(ks, before, top);
    }

    /** GetMaxVolumeIndex. */
    method GetMaxVolumeIndex() returns (count: int)
      requires Sound(naming) && dir == Layout(naming, volumes)
      ensures count >= 0 && forall k :: k in volumes ==> k <= count
      ensures count == 0 || count in volumes
    {
      count := 0;
      var rest := dir.Keys;
      while rest != {}
        invariant rest <= dir.Keys && count >= 0 && (count == 0 || count in volumes)
        invariant forall f :: f in dir && f !in rest ==> naming.index(f) <= count
        decreases |rest|
      {
        var f :| f in rest;
        rest := rest - {f};
        LayoutFile(naming, volumes, f);
        var k := naming.index(f);
        if count < k {
          count := k;
        }
      }
      forall k | k in volumes ensures k <= count {
        LayoutAt(naming, volumes, k);
        assert naming.index(naming.name(k)) == k;
      }
    }

    /** Opens volume 0 for appending, or empties it. */
    method OpenFile(append: bool)
      requires Sound(naming) && dir == Layout(naming, volumes)
      modifies this`dir, this`volumes
      ensures dir == Layout(naming, volumes)
      ensures volumes == if append && 0 in old(volumes) then old(volumes) else old(volumes)[0 := ""]
    {
      var file := naming.name(0);
      LayoutAt(naming, volumes, 0);
      if !append || file !in dir {
        SetLayout(naming, volumes, 0, "");
        dir := dir[file := ""];
        volumes := volumes[0 := ""];
      }
    }

    /** A log opened on the volumes that earlier runs have left. */
    constructor (naming: Naming, volumeCount: nat, volumeSize: nat, dir: map<string, string>, ghost found: Volumes)
      requires Sound(naming) && dir == Layout(naming, found)
      requires volumeCount > 0
      ensures Valid() && this.naming == naming && this.volumeCount == volumeCount && this.volumeSize == volumeSize
      ensures Now() == Opened(found)
    {
      this.naming, this.volumeCount, this.volumeSize := naming, volumeCount, volumeSize;
      this.dir, this.volumes := dir, found;
      current, volumeIndex, dropped := 0, 0, "";
      new;
      var max := GetMaxVolumeIndex();
      volumeIndex := if max > volumeCount then volumeCount else max;
      OpenFile(true);
    }

    /** The oldest volume the configuration allows goes; its file may not exist. */
    method DeleteOldest()
      requires Valid() && volumeCount > 1
      modifies this`dir, this`volumes, this`volumeIndex
      ensures dir == Layout(naming, volumes) && volumes == old(volumes) - {volumeCount - 1}
      ensures volumeIndex <= volumeCount - 1 && forall k :: k in volumes && k < volumeCount ==> k <= volumeIndex
    {
      if volumeIndex > 0 && volumeIndex >= volumeCount - 1 {
        volumeIndex := volumeCount - 1;
        RemoveLayout(naming, volumes, volumeIndex);
        dir := dir - {naming.name(volumeIndex)};
        volumes := volumes - {volumeIndex};
      } else {
        assert volumeCount - 1 !in volumes;
        assert volumes - {volumeCount - 1} == volumes;
      }
    }

    method RollingVolumes()
      requires Valid()
      modifies this`dir, this`volumes, this`volumeIndex, this`dropped
      ensures Valid()
      ensures volumes == Shift(old(volumes), volumeCount)
      ensures dropped == old(dropped) + Content(old(volumes), volumeCount - 1)
    {
      ghost var before := volumes;
      dropped := dropped + Content(volumes, volumeCount - 1);
      if volumeCount > 1 {
        DeleteOldest();
        ShiftBounded(before, volumes, volumeCount, volumeIndex);
        RenameAll();
        ShiftReached(before, volumeCount);
      } else {
        ShiftBounded(before, before, volumeCount, volumeIndex);
        ShiftOfOne(before);
      }
      OpenFile(false);
      volumeIndex := volumeIndex + 1;
    }

    method RollIfFull()
      requires Valid()
      modifies this
      ensures Valid()
      ensures current == if Full(old(Now()), volumeSize) then 0 else old(current)
      ensures volumes == Rolled(Full(old(Now()), volumeSize), old(volumes), volumeCount)
      ensures dropped == old(dropped) + if Full(old(Now()), volumeSize) then Content(old(volumes), volumeCount - 1) else ""
    {
      if volumeSize > 0 && current >= volumeSize {
        RollingVolumes();
        current := 0;
      }
    }

    /** `log` goes whole into the newest volume, a new one if the current one is full. */
    method Append(log: string)
      requires Valid()
      modifies this
      ensures Valid() && Now() == Appended(old(Now()), volumeCount, volumeSize, log)
    {
      RollIfFull();
      var text := CStr(log);
      current := current + |text|;
      Write(text);
    }

    method Write(text: string)
      requires Valid()
      modifies this`dir, this`volumes
      ensures Valid() && volumes == old(volumes)[0 := Content(old(volumes), 0) + text]
    {
      var file := naming.name(0);
      SetLayout(naming, volumes, 0, volumes[0] + text);
      LayoutAt(naming, volumes, 0);
      dir := dir[file := dir[file] + text];
      volumes := volumes[0 := volumes[0] + text];
    }
  }

  /** Renaming what is left after the deletion, then starting volume 0, is exactly one shift. */
  lemma ShiftReached(before: Volumes, count: nat)
    requires count > 1
    ensures Half(before - {count - 1}, 0, count - 1)[0 := ""] == Shift(before, count)
  {
    var kept, shift := before - {count - 1}, Shift(before, count);
    var next := Half(kept, 0, count - 1)[0 := ""];
    forall k: nat ensures k in next <==> k in shift {
      HalfIs(kept, 0, count - 1, k);
      assert Filled(before, k) <==> k == 0 || k - 1 in before;
    }
    forall k | k in next ensures next[k] == shift[k] {
      HalfIs(kept, 0, count - 1, k);
    }
  }

  lemma ShiftBounded(v: Volumes, kept: Volumes, count: nat, index: nat)
    requires forall k :: k in v && k + 1 < count ==> k in kept
    requires forall k :: k in kept && k < count ==> k <= index
    ensures forall k :: k in Shift(v, count) && k < count ==> k <= index + 1
  {
    forall k | k in Shift(v, count) && k < count ensures k <= index + 1 {
      assert Filled(v, k);
    }
  }

  lemma ShiftOfOne(before: Volumes)
    ensures before[0 := ""] == Shift(before, 1)
  {
    assert Filled(before, 0);
  }

  /** After `i` turns, the volumes from here to `top` are renamed. */
  function Bound(ks: seq<nat>, i: nat, top: nat): nat
    requires i <= |ks|
  {
    if i == 0 then top else Min(ks[i - 1], top)
  }

  lemma BetweenNothing(ks: seq<nat>, v: Volumes, i: nat, top: nat)
    requires Descending(ks, v) && i < |ks| && top !in v
    ensures ks[i] in v && Bound(ks, i + 1, top) == if ks[i] < top then ks[i] else Bound(ks, i, top)
    ensures ks[i] < top ==> ks[i] < Bound(ks, i, top) && forall m :: m in v ==> m <= ks[i] || m >= Bound(ks, i, top)
  {
    forall m | m in v ensures m <= ks[i] || (i > 0 && m >= ks[i - 1]) {
      NextLower(ks, v, i, m);
    }
  }

  lemma AllRenamed(ks: seq<nat>, v: Volumes, top: nat)
    requires Descending(ks, v) && top !in v
    ensures Half(v, Bound(ks, |ks|, top), top) == Half(v, 0, top)
  {
    forall k | k in v ensures k >= Bound(ks, |ks|, top) {
      var j :| 0 <= j < |ks| && ks[j] == k;
    }
    SkipAbsent(v, 0, Bound(ks, |ks|, top), top);
  }

  /** A log of `count` volumes, opened on the files of earlier runs, leaves the files After says. */
  method RunOn(naming: Naming, count: nat, size: nat, dir0: map<string, string>, ghost found: Volumes, logs: seq<string>)
    returns (dir: map<string, string>)
    requires Sound(naming) && count > 0 && dir0 == Layout(naming, found)
    ensures dir == Layout(naming, After(found, count, size, logs).volumes)
  {
    var log := new LogAppenderFile(naming, count, size, dir0, found);
    for i := 0 to |logs|
      invariant log.Valid() && fresh(log) && log.naming == naming && log.volumeCount == count && log.volumeSize == size
      invariant log.Now() == After(found, count, size, logs[..i])
    {
      assert logs[..i + 1][..i] == logs[..i];
      log.Append(logs[i]);
    }
    assert logs[..|logs|] == logs;
    dir := log.dir;
  }

  /** RunOn with the file names the appender really uses. */
  method Run(prefix: string, count: nat, size: nat, dir0: map<string, string>, ghost found: Volumes, logs: seq<string>)
    returns (dir: map<string, string>)
    requires count > 0 && dir0 == Layout(NamesOf(prefix), found)
    ensures dir == Layout(NamesOf(prefix), After(found, count, size, logs).volumes)
  {
    NamesSound(prefix);
    dir := RunOn(NamesOf(prefix), count, size, dir0, found, logs);
  }
}
