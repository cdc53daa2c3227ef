/** String searching, splitting and trimming as the HTTP code uses them: std::string::find,
    Split of src/utility/algorithm.h and boost::algorithm::trim. */
module Text {
  import opened Machine

  predicate OccursAt(s: string, pattern: string, i: nat) {
    i + |pattern| <= |s| && forall j :: 0 <= j < |pattern| ==> s[i + j] == pattern[j]
  }

  lemma OccursHead(s: string, pattern: string, i: nat)
    requires pattern != []
    ensures OccursAt(s, pattern, i) ==> i < |s| && s[i] == pattern[0]
  {
    assert OccursAt(s, pattern, i) ==> s[i + 0] == pattern[0];
  }

  lemma OccursOne(s: string, pattern: string, i: nat)
    requires |pattern| == 1
    ensures OccursAt(s, pattern, i) <==> i < |s| && s[i] == pattern[0]
  {
    if i < |s| && s[i] == pattern[0] {
      assert forall j :: 0 <= j < 1 ==> s[i + j] == pattern[j];
    }
    assert OccursAt(s, pattern, i) ==> s[i + 0] == pattern[0];
  }

  lemma OccursTwo(s: string, pattern: string, i: nat)
    requires |pattern| == 2
    ensures OccursAt(s, pattern, i) <==> i + 1 < |s| && s[i] == pattern[0] && s[i + 1] == pattern[1]
  {
    if i + 1 < |s| && s[i] == pattern[0] && s[i + 1] == pattern[1] {
      assert forall j :: 0 <= j < 2 ==> s[i + j] == pattern[j];
    }
    assert OccursAt(s, pattern, i) ==> s[i + 0] == pattern[0] && s[i + 1] == pattern[1];
  }

  predicate Free(s: string, pattern: string) {
    forall i :: 0 <= i <= |s| ==> !OccursAt(s, pattern, i)
  }

  /** std::string::find: the first occurrence at or after `from`. */
  function Find(s: string, pattern: string, from: nat): (r: Option<nat>)
    ensures r.Some? ==> from <= r.value && r.value + |pattern| <= |s|
    decreases |s| - from
  {
    if from + |pattern| > |s| then None
    else if OccursAt(s, pattern, from) then Some(from)
    else Find(s, pattern, from + 1)
  }

  ghost predicate NoneBetween(s: string, pattern: string, from: nat, to: nat) {
    forall i: nat :: from <= i < to ==> !OccursAt(s, pattern, i)
  }

  lemma {:induction false} FindFirst(s: string, pattern: string, from: nat)
    ensures var r := Find(s, pattern, from);
            if r.Some? then OccursAt(s, pattern, r.value) && NoneBetween(s, pattern, from, r.value)
            else NoneBetween(s, pattern, from, |s| + 1)
    decreases |s| - from
  {
    if from + |pattern| <= |s| && !OccursAt(s, pattern, from) {
      FindFirst(s, pattern, from + 1);
    }
  }

  lemma FindUnique(s: string, pattern: string, from: nat, at: nat)
    requires from <= at && OccursAt(s, pattern, at) && NoneBetween(s, pattern, from, at)
    ensures Find(s, pattern, from) == Some(at)
  {
    FindFirst(s, pattern, from);
  }

  lemma FindNothing(s: string, pattern: string, from: nat)
    requires NoneBetween(s, pattern, from, |s| + 1)
    ensures Find(s, pattern, from) == None
  {
    FindFirst(s, pattern, from);
  }

  lemma OccursShift(s: string, pattern: string, from: nat, i: nat)
    requires from <= |s|
    ensures OccursAt(s[from..], pattern, i) == OccursAt(s, pattern, from + i)
  {
    if from + i + |pattern| <= |s| {
      assert s[from..][i..i + |pattern|] == s[from + i..from + i + |pattern|];
    }
  }

  /** Searching from an index is searching the rest of the string. */
  lemma {:induction false} FindShift(s: string, pattern: string, from: nat, k: nat)
    requires from + k <= |s|
    ensures var r := Find(s[from..], pattern, k);
            Find(s, pattern, from + k) == if r.Some? then Some(from + r.value) else None
    decreases |s| - from - k
  {
    OccursShift(s, pattern, from, k);
    if from + k + |pattern| <= |s| && !OccursAt(s, pattern, from + k) {
      if from + k < |s| {
        FindShift(s, pattern, from, k + 1);
      }
    }
  }

  // ---------------------------------------------------------------- splitting

  /** The pieces between delimiters; nothing follows a delimiter at the very end. */
  function Pieces(s: string, delim: string): seq<string>
    requires delim != []
    decreases |s|, 1
  {
    if s == [] then [] else PiecesAt(s, delim, Find(s, delim, 0))
  }

  function PiecesAt(s: string, delim: string, first: Option<nat>): seq<string>
    requires delim != [] && s != [] && (first.Some? ==> first.value + |delim| <= |s|)
    decreases |s|, 0
  {
    if first == None then [s] else [s[..first.value]] + Pieces(s[first.value + |delim|..], delim)
  }

  lemma Slices(s: string, from: nat, a: nat, b: nat)
    requires from + b <= |s| && a <= b
    ensures s[from..][..a] == s[from..from + a] && s[from..][b..] == s[from + b..]
  {
  }

  lemma PiecesUnfold(t: string, delim: string, r: nat)
    requires delim != [] && t != [] && Find(t, delim, 0) == Some(r)
    ensures r + |delim| <= |t|
    ensures Pieces(t, delim) == [t[..r]] + Pieces(t[r + |delim|..], delim)
  {
    assert Pieces(t, delim) == PiecesAt(t, delim, Some(r));
    PiecesAtFirst(t, delim, r);
  }

  lemma PiecesAtFirst(t: string, delim: string, r: nat)
    requires delim != [] && t != [] && r + |delim| <= |t|
    ensures PiecesAt(t, delim, Some(r)) == [t[..r]] + Pieces(t[r + |delim|..], delim)
  {
  }

  lemma FindInRest(s: string, pattern: string, from: nat)
    requires from <= |s|
    ensures Find(s[from..], pattern, 0) ==
            match Find(s, pattern, from) case None => None case Some(at) => Some(at - from)
  {
    FindShift(s, pattern, from, 0);
  }

  /** What one turn of Split's loop does. */
  lemma NextPiece(s: string, delim: string, last: nat, at: nat)
    requires delim != [] && last < |s| && Find(s, delim, last) == Some(at)
    ensures last <= at && at + |delim| <= |s|
    ensures Pieces(s[last..], delim) == [s[last..at]] + Pieces(s[at + |delim|..], delim)
  {
    FindInRest(s, delim, last);
    var t, r := s[last..], at - last;
    Slices(s, last, r, r + |delim|);
    PiecesUnfold(t, delim, r);
  }

  lemma LastPiece(s: string, delim: string, last: nat)
    requires delim != [] && last < |s| && Find(s, delim, last) == None
    ensures Pieces(s[last..], delim) == [s[last..]]
  {
    FindInRest(s, delim, last);
  }

  /** Split of src/utility/algorithm.h. */
  method Split(input: string, splitter: string) returns (result: seq<string>)
    requires splitter != []
    ensures result == Pieces(input, splitter)
  {
    result := [];
    var last := 0;
    ghost var all := Pieces(input, splitter);
    assert input[0..] == input;
    while last < |input|
      invariant 0 <= last <= |input|
      invariant result + Pieces(input[last..], splitter) == all
    {
      var pos := Find(input, splitter, last);
      if pos == None {
        LastPiece(input, splitter, last);
        result := result + [input[last..]];
        return;
      }
      NextPiece(input, splitter, last, pos.value);
      result := result + [input[last..pos.value]];
      last := pos.value + |splitter|;
    }
  }

  function Joined(pieces: seq<string>, delim: string): string {
    if pieces == [] then [] else pieces[0] + delim + Joined(pieces[1..], delim)
  }

  /** `s` ends where the first delimiter of `s + delim` begins. */
  predicate Separable(s: string, delim: string) {
    forall i :: 0 <= i < |s| ==> !OccursAt(s + delim, delim, i)
  }

  lemma FindTerminator(s: string, delim: string, rest: string)
    requires delim != [] && Separable(s, delim)
    ensures Find(s + delim + rest, delim, 0) == Some(|s|)
  {
    var whole := s + delim + rest;
    assert whole[|s|..|s| + |delim|] == delim;
    forall i: nat | i < |s| ensures !OccursAt(whole, delim, i) {
      assert !OccursAt(s + delim, delim, i);
      assert whole[i..i + |delim|] == (s + delim)[i..i + |delim|];
    }
    FindUnique(whole, delim, 0, |s|);
  }

  lemma FirstPiece(s: string, delim: string, rest: string)
    requires delim != [] && Separable(s, delim)
    ensures Pieces(s + delim + rest, delim) == [s] + Pieces(rest, delim)
  {
    var whole := s + delim + rest;
    FindTerminator(s, delim, rest);
    PiecesUnfold(whole, delim, |s|);
    assert whole[..|s|] == s && whole[|s| + |delim|..] == rest;
  }

  /** Splitting undoes joining, with or without a delimiter at the end. */
  lemma {:induction false} PiecesOfJoined(pieces: seq<string>, last: string, delim: string)
    requires delim != [] && forall i :: 0 <= i < |pieces| ==> Separable(pieces[i], delim)
    requires Free(last, delim)
    ensures Pieces(Joined(pieces, delim) + last, delim) == pieces + if last == [] then [] else [last]
  {
    if pieces == [] {
      assert Joined(pieces, delim) + last == last;
      Unsplit(last, delim);
    } else {
      var rest, tail := Joined(pieces[1..], delim), if last == [] then [] else [last];
      Regroup(pieces[0] + delim, rest, last);
      FirstPiece(pieces[0], delim, rest + last);
      PiecesOfJoined(pieces[1..], last, delim);
      Regroup([pieces[0]], pieces[1..], tail);
      assert [pieces[0]] + pieces[1..] == pieces;
    }
  }

  /** An empty piece before a last delimiter counts. */
  lemma {:induction false} PiecesOfLines(lines: seq<string>, delim: string)
    requires delim != [] && forall i :: 0 <= i < |lines| ==> Separable(lines[i], delim)
    ensures Pieces(Joined(lines, delim) + delim, delim) == lines + [""]
  {
    if lines == [] {
      FirstPiece("", delim, "");
      assert "" + delim + "" == delim == Joined(lines, delim) + delim;
    } else {
      var rest := Joined(lines[1..], delim);
      Regroup(lines[0] + delim, rest, delim);
      FirstPiece(lines[0], delim, rest + delim);
      PiecesOfLines(lines[1..], delim);
      Regroup([lines[0]], lines[1..], [""]);
      assert [lines[0]] + lines[1..] == lines;
    }
  }

  lemma Unsplit(s: string, delim: string)
    requires delim != [] && Free(s, delim)
    ensures Pieces(s, delim) == if s == [] then [] else [s]
  {
    FindNothing(s, delim, 0);
  }

  lemma OccursPart(s: string, pattern: string, a: nat, b: nat, i: nat)
    requires a <= b <= |s| && i + |pattern| <= b - a
    ensures OccursAt(s[a..b], pattern, i) == OccursAt(s, pattern, a + i)
  {
    var t := s[a..b];
    assert forall k {:trigger t[k]} :: 0 <= k < b - a ==> t[k] == s[a + k];
    if OccursAt(t, pattern, i) {
      forall j | 0 <= j < |pattern| ensures s[a + i + j] == pattern[j] { assert t[i + j] == pattern[j]; }
    } else {
      var j :| 0 <= j < |pattern| && t[i + j] != pattern[j];
      assert s[a + i + j] != pattern[j];
    }
  }

  lemma FreePart(s: string, pattern: string, a: nat, b: nat)
    requires a <= b <= |s| && Free(s, pattern)
    ensures Free(s[a..b], pattern)
  {
    forall i | 0 <= i <= b - a ensures !OccursAt(s[a..b], pattern, i) {
      assert !OccursAt(s, pattern, a + i);
      if i + |pattern| <= b - a {
        OccursPart(s, pattern, a, b, i);
      }
    }
  }

  lemma FreeBeforeFirst(s: string, pattern: string, at: nat)
    requires pattern != [] && Find(s, pattern, 0) == Some(at)
    ensures Free(s[..at], pattern)
  {
    FindFirst(s, pattern, 0);
    forall i | 0 <= i <= at ensures !OccursAt(s[..at], pattern, i) {
      if i + |pattern| <= at {
        assert !OccursAt(s, pattern, i);
        OccursPart(s, pattern, 0, at, i);
      }
    }
  }

  /** No piece contains the delimiter. */
  lemma {:induction false} PiecesFree(s: string, delim: string)
    requires delim != []
    ensures forall i :: 0 <= i < |Pieces(s, delim)| ==> Free(Pieces(s, delim)[i], delim)
    decreases |s|
  {
    if s != [] {
      var r := Find(s, delim, 0);
      FindFirst(s, delim, 0);
      if r.Some? {
        FreeBeforeFirst(s, delim, r.value);
        PiecesFree(s[r.value + |delim|..], delim);
        PiecesUnfold(s, delim, r.value);
      } else {
        assert Pieces(s, delim) == [s];
      }
    }
  }

  // ---------------------------------------------------------------- trimming

  predicate IsSpace(c: char) {
    c == ' ' || 9 <= c as int <= 13
  }

  function TrimLeft(s: string): string {
    if s != [] && IsSpace(s[0]) then TrimLeft(s[1..]) else s
  }

  function TrimRight(s: string): string {
    if s != [] && IsSpace(s[|s| - 1]) then TrimRight(s[..|s| - 1]) else s
  }

  function Trim(s: string): string {
    TrimRight(TrimLeft(s))
  }

  predicate Trimmed(s: string) {
    s != [] ==> !IsSpace(s[0]) && !IsSpace(s[|s| - 1])
  }

  lemma {:induction false} TrimLeftSuffix(s: string)
    ensures exists a: nat :: a <= |s| && TrimLeft(s) == s[a..]
    ensures TrimLeft(s) != [] ==> !IsSpace(TrimLeft(s)[0])
  {
    if s != [] && IsSpace(s[0]) {
      TrimLeftSuffix(s[1..]);
      var a: nat :| a <= |s[1..]| && TrimLeft(s[1..]) == s[1..][a..];
      assert TrimLeft(s) == s[a + 1..];
    } else {
      assert TrimLeft(s) == s[0..];
    }
  }

  lemma {:induction false} TrimRightPrefix(s: string)
    ensures exists b: nat :: b <= |s| && TrimRight(s) == s[..b]
    ensures TrimRight(s) != [] ==> !IsSpace(TrimRight(s)[|TrimRight(s)| - 1])
  {
    if s != [] && IsSpace(s[|s| - 1]) {
      TrimRightPrefix(s[..|s| - 1]);
      var b: nat :| b <= |s| - 1 && TrimRight(s[..|s| - 1]) == s[..|s| - 1][..b];
      assert TrimRight(s) == s[..b];
    } else {
      assert TrimRight(s) == s[..|s|];
    }
  }

  /** Trimming takes a trimmed substring, and leaves trimmed strings alone. */
  lemma TrimSubstring(s: string)
    ensures Trimmed(Trim(s))
    ensures exists a: nat, b: nat :: a <= b <= |s| && Trim(s) == s[a..b]
    ensures Trimmed(s) ==> Trim(s) == s
  {
    TrimLeftSuffix(s);
    var a: nat :| a <= |s| && TrimLeft(s) == s[a..];
    var t := TrimLeft(s);
    TrimRightPrefix(t);
    var b: nat :| b <= |t| && TrimRight(t) == t[..b];
    Inner(s, a, b);
    if Trim(s) != [] {
      assert Trim(s)[0] == t[0];
    }
  }

  lemma Inner(s: string, a: nat, b: nat)
    requires a + b <= |s|
    ensures s[a..][..b] == s[a..a + b]
  {
  }

  predicate Spaces(s: string) {
    forall i :: 0 <= i < |s| ==> IsSpace(s[i])
  }

  lemma {:induction false} TrimLeftBlanks(a: string, s: string)
    requires Spaces(a)
    ensures TrimLeft(a + s) == TrimLeft(s)
  {
    if a == "" {
      assert a + s == s;
    } else {
      assert (a + s)[1..] == a[1..] + s;
      TrimLeftBlanks(a[1..], s);
    }
  }

  lemma {:induction false} TrimRightBlanks(s: string, b: string)
    requires Spaces(b)
    ensures TrimRight(s + b) == TrimRight(s)
  {
    if b == "" {
      assert s + b == s;
    } else {
      var n := |b| - 1;
      assert (s + b)[..|s + b| - 1] == s + b[..n];
      TrimRightBlanks(s, b[..n]);
    }
  }

  const BLANKS := " \t\n\U{0B}\U{0C}\r"

  predicate Blank(s: string) {
    forall i :: 0 <= i < |s| ==> s[i] in BLANKS
  }

  lemma BlankIsSpace(s: string)
    ensures Blank(s) <==> Spaces(s)
    ensures Trimmed(s) <==> (s != "" ==> s[0] !in BLANKS && s[|s| - 1] !in BLANKS)
  {
  }

  lemma TrimSpaces(a: string, s: string, b: string)
    requires Spaces(a) && Trimmed(s) && Spaces(b)
    ensures Trim(a + s + b) == s
  {
    assert a + s + b == a + (s + b);
    TrimLeftBlanks(a, s + b);
    if s == "" {
      TrimLeftBlanks(b, "");
      assert s + b == b == b + "";
    } else {
      assert (s + b)[0] == s[0];
      TrimRightBlanks(s, b);
    }
  }

  /** Trimming takes off the blanks around a text, and nothing else. */
  lemma TrimAround(a: string, s: string, b: string)
    requires Blank(a) && (s != "" ==> s[0] !in BLANKS && s[|s| - 1] !in BLANKS) && Blank(b)
    ensures Trim(a + s + b) == s
  {
    BlankIsSpace(a);
    BlankIsSpace(s);
    BlankIsSpace(b);
    TrimSpaces(a, s, b);
  }

  lemma FreeTrim(s: string, pattern: string)
    requires Free(s, pattern)
    ensures Free(Trim(s), pattern)
  {
    TrimSubstring(s);
    var a: nat, b: nat :| a <= b <= |s| && Trim(s) == s[a..b];
    FreePart(s, pattern, a, b);
  }

  // ---------------------------------------------------------------- decimal numbers

  predicate IsDigit(c: char) {
    '0' <= c <= '9'
  }

  predicate AllDigits(s: string) {
    forall i :: 0 <= i < |s| ==> IsDigit(s[i])
  }

  function Decimal(s: string): nat
    requires AllDigits(s)
  {
    if s == [] then 0 else 10 * Decimal(s[..|s| - 1]) + (s[|s| - 1] as int - '0' as int)
  }

  function Digit(d: nat): char
    requires d < 10
  {
    ('0' as int + d) as char
  }

  function Itoa(n: nat): (s: string)
    ensures s != "" && AllDigits(s)
  {
    if n < 10 then [Digit(n)] else Itoa(n / 10) + [Digit(n % 10)]
  }

  lemma {:induction false} DecimalItoa(n: nat)
    ensures Decimal(Itoa(n)) == n
  {
    if n < 10 {
      assert Itoa(n)[..0] == [];
    } else {
      DecimalItoa(n / 10);
      assert Itoa(n)[..|Itoa(n)| - 1] == Itoa(n / 10);
    }
  }

  /** The decimal text of a number: read in base ten it is the number, and it has no leading zero. */
  lemma {:induction false} ItoaExactly(n: nat)
    ensures Decimal(Itoa(n)) == n && (Itoa(n)[0] == '0' ==> Itoa(n) == "0")
    ensures Itoa(n) == "0" <==> n == 0
  {
    DecimalItoa(n);
    if n >= 10 {
      ItoaExactly(n / 10);
    }
  }
}
