/** The two scanners of the packaging script, which read a file in chunks and carry a short tail
    from one chunk into the next. A byte is a character with a code below 256. */
module BinaryScan {
  import opened Prelude

  const CHUNK: nat := 0x10_0000
  const GLIBC_TAIL: int := 16
  const PREFIX: string := "GLIBC_2."

  /** The next chunk of a file read from `pos` on: full, unless the file ends first. */
  function ReadChunk(file: string, pos: nat): (r: string)
    requires pos <= |file|
    ensures pos + |r| <= |file| && r == file[pos..pos + |r|]
    ensures |r| == CHUNK || (|r| < CHUNK && pos + |r| == |file|)
    ensures r == "" <==> pos == |file|
  {
    if |file| - pos <= CHUNK then file[pos..] else file[pos..pos + CHUNK]
  }

  /** A slice from k to the end, where a negative k counts from the end. */
  function SliceFrom(s: string, k: int): (r: string)
    ensures |r| <= |s| && r == s[|s| - |r|..]
    ensures k >= 0 ==> |r| == if k <= |s| then |s| - k else 0
    ensures k < 0 ==> |r| == if -k <= |s| then -k else |s|
  {
    if k >= 0 then (if k <= |s| then s[k..] else s[|s|..])
    else if |s| + k >= 0 then s[|s| + k..] else s
  }

  // ---- The marker search ----

  ghost predicate OccursAt(s: string, marker: string, i: int) {
    0 <= i <= |s| - |marker| && s[i..i + |marker|] == marker
  }

  ghost predicate Occurs(s: string, marker: string) {
    exists i :: OccursAt(s, marker, i)
  }

  /** Substring containment, the `in` of the script. */
  method Contains(s: string, marker: string) returns (found: bool)
    ensures found <==> Occurs(s, marker)
  {
    var i := 0;
    while i + |marker| <= |s|
      invariant forall j :: 0 <= j < i ==> !OccursAt(s, marker, j)
    {
      if s[i..i + |marker|] == marker {
        assert OccursAt(s, marker, i);
        return true;
      }
      i := i + 1;
    }
    return false;
  }

  lemma OccursInWindow(file: string, lo: nat, hi: nat, marker: string, i: int)
    requires lo <= hi <= |file|
    ensures OccursAt(file[lo..hi], marker, i - lo) <==> lo <= i && i + |marker| <= hi && OccursAt(file, marker, i)
  {
    if lo <= i && i + |marker| <= hi {
      SliceOfSlice(file, lo, hi, i - lo, i - lo + |marker|);
    }
  }

  lemma WindowOccurs(file: string, lo: nat, hi: nat, marker: string)
    requires lo <= hi <= |file|
    ensures Occurs(file[lo..hi], marker) <==> exists i :: lo <= i && i + |marker| <= hi && OccursAt(file, marker, i)
  {
    hide OccursAt;
    if j :| OccursAt(file[lo..hi], marker, j) {
      OccursInWindow(file, lo, hi, marker, j + lo);
    }
    if i :| lo <= i && i + |marker| <= hi && OccursAt(file, marker, i) {
      OccursInWindow(file, lo, hi, marker, i);
    }
  }

  lemma NoneBefore(file: string, marker: string)
    ensures forall i :: OccursAt(file, marker, i) ==> 0 <= i && i + |marker| <= |file| && Occurs(file, marker)
    ensures Occurs(file, marker) ==> exists i :: OccursAt(file, marker, i)
  {
  }

  /** The chunked search never reports a marker that is not there, and misses none that fits a
      chunk and a byte. */
  method CarriesMarker(file: string, marker: string) returns (found: bool)
    ensures found ==> Occurs(file, marker)
    ensures 1 <= |marker| <= CHUNK + 1 ==> (found <==> Occurs(file, marker))
  {
    hide Occurs, OccursAt, ReadChunk, SliceFrom;
    var pos, tail := 0, "";
    NoneBefore(file, marker);
    ghost var lo: nat := 0;
    while true
      invariant lo <= pos <= |file| && tail == file[lo..pos]
      invariant 1 <= |marker| <= CHUNK + 1 && pos < |file| ==> lo == 0 || |tail| >= |marker| - 1
      invariant 1 <= |marker| <= CHUNK + 1 ==> forall i :: i + |marker| <= pos ==> !OccursAt(file, marker, i)
      decreases |file| - pos
    {
      var chunk := ReadChunk(file, pos);
      if chunk == "" {
        return false;
      }
      var hi := pos + |chunk|;
      assert tail + chunk == file[lo..hi];
      var here := Contains(tail + chunk, marker);
      WindowOccurs(file, lo, hi, marker);
      if here {
        return true;
      }
      tail := SliceFrom(chunk, -(|marker| - 1));
      pos := hi;
      lo := pos - |tail|;
    }
  }

  // ---- The highest GLIBC minor ----

  predicate IsDigit(c: char) {
    '0' <= c <= '9'
  }

  /** The end of the run of digits that starts at i. */
  function DigitsEnd(s: string, i: nat): (r: nat)
    requires i <= |s|
    ensures i <= r <= |s|
    ensures forall j :: i <= j < r ==> IsDigit(s[j])
    ensures r < |s| ==> !IsDigit(s[r])
    decreases |s| - i
  {
    if i < |s| && IsDigit(s[i]) then DigitsEnd(s, i + 1) else i
  }

  ghost predicate Digits(s: string) {
    forall j :: 0 <= j < |s| ==> IsDigit(s[j])
  }

  function Decimal(s: string): nat
    requires Digits(s)
  {
    if s == "" then 0 else Decimal(s[..|s| - 1]) * 10 + (s[|s| - 1] as int - '0' as int)
  }

  ghost predicate MatchAt(s: string, i: int) {
    0 <= i <= |s| - |PREFIX| - 1 && s[i..i + |PREFIX|] == PREFIX && IsDigit(s[i + |PREFIX|])
  }

  /** The number a match at i yields when nothing from `end` on is visible. */
  ghost function MinorUpTo(s: string, i: int, end: nat): nat
    requires MatchAt(s, i) && i + |PREFIX| <= end
  {
    var stop := DigitsEnd(s, i + |PREFIX|);
    Decimal(s[i + |PREFIX|..if stop <= end then stop else end])
  }

  ghost function Minor(s: string, i: int): nat
    requires MatchAt(s, i)
  {
    MinorUpTo(s, i, |s|)
  }

  /** The whole-file answer: the largest minor of any match, or 0 without one. */
  ghost predicate Highest(s: string, best: nat) {
    && (forall i | MatchAt(s, i) :: Minor(s, i) <= best)
    && (best == 0 || exists i :: MatchAt(s, i) && Minor(s, i) == best)
  }

  /** A run of digits holds no prefix, so no match starts inside another. */
  lemma MatchesAreApart(s: string, i: int, j: int)
    requires MatchAt(s, i) && MatchAt(s, j) && i < j
    ensures DigitsEnd(s, i + |PREFIX|) <= j
  {
    assert s[j] == s[j..j + |PREFIX|][0] == 'G';
    assert forall k :: 0 <= k < |PREFIX| ==> s[i + k] == s[i..i + |PREFIX|][k] == PREFIX[k];
    assert forall k :: 0 < k < |PREFIX| ==> PREFIX[k] != 'G';
    assert forall k :: i < k < i + |PREFIX| ==> s[k] == PREFIX[k - i];
  }

  /** All the matches of a window, left to right, folded into a running maximum. */
  method FoldMatches(window: string, best0: nat) returns (best: nat)
    ensures best >= best0
    ensures forall i | MatchAt(window, i) :: Minor(window, i) <= best
    ensures best == best0 || exists i :: MatchAt(window, i) && Minor(window, i) == best
  {
    best := best0;
    var at := 0;
    while at + |PREFIX| < |window|
      invariant at <= |window| && best >= best0
      invariant forall i | MatchAt(window, i) :: i < at ==> Minor(window, i) <= best
      invariant best == best0 || exists i :: MatchAt(window, i) && Minor(window, i) == best
      decreases |window| - at
    {
      if window[at..at + |PREFIX|] == PREFIX && IsDigit(window[at + |PREFIX|]) {
        var stop := DigitsEnd(window, at + |PREFIX|);
        var value := Decimal(window[at + |PREFIX|..stop]);
        assert MatchAt(window, at) && Minor(window, at) == value;
        forall i | MatchAt(window, i) && at < i
          ensures stop <= i
        {
          MatchesAreApart(window, at, i);
        }
        if value > best {
          best := value;
        }
        at := stop;
      } else {
        assert !MatchAt(window, at);
        at := at + 1;
      }
    }
  }

  // ---- What the chunked scan sees of a match ----

  function Min(a: nat, b: nat): nat {
    if a <= b then a else b
  }

  /** Where the view of a match that starts at i ends: with the chunk it starts in, or with the
      next one when it starts in the tail that is carried over. */
  function ScanEnd(i: nat, length: nat): nat
    requires i < length
  {
    var end := Min((i / CHUNK + 1) * CHUNK, length);
    if i + GLIBC_TAIL >= end then Min(end + CHUNK, length) else end
  }

  ghost predicate Seen(file: string, i: int, pos: nat) {
    MatchAt(file, i) && i + |PREFIX| < pos
  }

  /** The most that the scan up to `pos` has seen of a match. */
  ghost function SeenMinor(file: string, i: int, pos: nat): nat
    requires pos <= |file| && Seen(file, i, pos)
  {
    MinorUpTo(file, i, Min(ScanEnd(i, |file|), pos))
  }

  ghost predicate Scanned(file: string, pos: nat, best: nat)
    requires pos <= |file|
  {
    && (forall i | Seen(file, i, pos) :: SeenMinor(file, i, pos) <= best)
    && (best == 0 || exists i :: Seen(file, i, pos) && SeenMinor(file, i, pos) == best)
  }

  lemma {:induction false} DigitsEndInWindow(file: string, lo: nat, hi: nat, i: nat)
    requires lo <= i <= hi <= |file|
    ensures DigitsEnd(file[lo..hi], i - lo) + lo == Min(DigitsEnd(file, i), hi)
    decreases hi - i
  {
    if i < hi && IsDigit(file[i]) {
      DigitsEndInWindow(file, lo, hi, i + 1);
    }
  }

  lemma MatchInWindow(file: string, lo: nat, hi: nat, i: int)
    requires lo <= hi <= |file|
    ensures MatchAt(file[lo..hi], i - lo) <==> lo <= i && Seen(file, i, hi)
    ensures MatchAt(file[lo..hi], i - lo) ==> Minor(file[lo..hi], i - lo) == MinorUpTo(file, i, hi)
  {
    if lo <= i && i + |PREFIX| < hi {
      var window := file[lo..hi];
      var digits := i + |PREFIX|;
      SliceOfSlice(file, lo, hi, i - lo, digits - lo);
      if MatchAt(window, i - lo) {
        DigitsEndInWindow(file, lo, hi, digits);
        SliceOfSlice(file, lo, hi, digits - lo, DigitsEnd(window, digits - lo));
      }
    }
  }

  /** A window starts where a match is first carried over, so it shows each of its matches as far
      as the scan ever will, and adds nothing to matches that start before it. */
  lemma ScanEndInStep(file: string, lo: nat, pos: nat, hi: nat, i: nat)
    requires pos < hi == Min(pos + CHUNK, |file|) && pos % CHUNK == 0
    requires lo == if pos == 0 then 0 else pos - GLIBC_TAIL
    requires i + |PREFIX| < hi
    ensures i >= lo ==> Min(ScanEnd(i, |file|), hi) == hi
    ensures i < lo ==> i + |PREFIX| < pos && ScanEnd(i, |file|) <= pos
  {
  }

  lemma ScanStep(file: string, lo: nat, pos: nat, hi: nat, best0: nat, best: nat)
    requires pos < hi == Min(pos + CHUNK, |file|) && pos % CHUNK == 0
    requires lo == if pos == 0 then 0 else pos - GLIBC_TAIL
    requires Scanned(file, pos, best0) && best >= best0
    requires forall i | MatchAt(file[lo..hi], i) :: Minor(file[lo..hi], i) <= best
    requires best == best0 || exists i :: MatchAt(file[lo..hi], i) && Minor(file[lo..hi], i) == best
    ensures Scanned(file, hi, best)
  {
    hide MatchAt, MinorUpTo, Minor, ScanEnd;
    forall i | Seen(file, i, hi)
      ensures i >= lo ==>
        MatchAt(file[lo..hi], i - lo) && SeenMinor(file, i, hi) == Minor(file[lo..hi], i - lo)
      ensures i < lo ==> Seen(file, i, pos) && SeenMinor(file, i, hi) == SeenMinor(file, i, pos)
    {
      SeenIsIndex(file, i, hi);
      ScanEndInStep(file, lo, pos, hi, i);
      MatchInWindow(file, lo, hi, i);
    }
    if best > best0 {
      var j :| MatchAt(file[lo..hi], j) && Minor(file[lo..hi], j) == best;
      MatchInWindow(file, lo, hi, j + lo);
      assert Seen(file, j + lo, hi);
    } else if best > 0 {
      var i :| Seen(file, i, pos) && SeenMinor(file, i, pos) == best;
      SeenIsIndex(file, i, pos);
      ScanEndInStep(file, lo, pos, hi, i);
      SeenGrows(file, i, pos, hi);
    }
  }

  lemma SeenIsIndex(file: string, i: int, pos: nat)
    requires Seen(file, i, pos)
    ensures 0 <= i
  {
  }

  lemma {:induction false} DecimalOfPrefix(s: string, n: nat)
    requires Digits(s) && n <= |s|
    ensures Decimal(s[..n]) <= Decimal(s)
    ensures n < |s| ==> 10 * Decimal(s[..n]) <= Decimal(s)
  {
    if n < |s| {
      var shorter := s[..|s| - 1];
      DecimalOfPrefix(shorter, n);
      assert shorter[..n] == s[..n];
    } else {
      assert s[..n] == s;
    }
  }

  /** Seeing more of a match never lowers its number; seeing less of it than there is divides the
      number by ten or more. */
  lemma MinorGrows(s: string, i: int, a: nat, b: nat)
    requires MatchAt(s, i) && i + |PREFIX| <= a <= b
    ensures MinorUpTo(s, i, a) <= MinorUpTo(s, i, b)
    ensures a < Min(DigitsEnd(s, i + |PREFIX|), b) ==> 10 * MinorUpTo(s, i, a) <= MinorUpTo(s, i, b)
  {
    var digits := i + |PREFIX|;
    var stop := DigitsEnd(s, digits);
    var longer, shorter := s[digits..Min(stop, b)], s[digits..Min(stop, a)];
    assert longer[..|shorter|] == shorter;
    DecimalOfPrefix(longer, |shorter|);
  }

  lemma SeenGrows(file: string, i: int, pos: nat, hi: nat)
    requires pos <= hi <= |file| && Seen(file, i, pos)
    ensures Seen(file, i, hi) && SeenMinor(file, i, pos) <= SeenMinor(file, i, hi)
  {
    MinorGrows(file, i, Min(ScanEnd(i, |file|), pos), Min(ScanEnd(i, |file|), hi));
  }

  /** The chunked scan computes exactly the largest of the numbers it can see. */
  method MaxGlibcMinor(file: string) returns (best: nat)
    ensures Scanned(file, |file|, best)
  {
    hide MatchAt, Minor, ReadChunk, SliceFrom, Seen, SeenMinor;
    best := 0;
    var pos, tail := 0, "";
    ghost var lo: nat := 0;
    NothingSeen(file);
    while true
      invariant pos <= |file| && Scanned(file, pos, best)
      invariant lo <= pos && tail == file[lo..pos]
      invariant pos < |file| ==> pos % CHUNK == 0 && lo == if pos == 0 then 0 else pos - GLIBC_TAIL
      decreases |file| - pos
    {
      var chunk := ReadChunk(file, pos);
      if chunk == "" {
        return;
      }
      ghost var hi := pos + |chunk|;
      assert tail + chunk == file[lo..hi];
      var found := FoldMatches(tail + chunk, best);
      ScanStep(file, lo, pos, hi, best, found);
      best := found;
      pos := pos + |chunk|;
      tail := SliceFrom(chunk, -GLIBC_TAIL);
      lo := pos - |tail|;
    }
  }

  lemma NothingSeen(file: string)
    ensures Scanned(file, 0, 0)
  {
  }

  /** The scan never reports more than the file holds, and it reports the highest minor exactly
      when there is none above 0 or some match of that minor ends before its view does. */
  lemma ScanIsHighestIff(file: string, scanned: nat, highest: nat)
    requires Scanned(file, |file|, scanned) && Highest(file, highest)
    ensures scanned <= highest
    ensures scanned == highest <==>
      highest == 0 || exists i: nat ::
        MatchAt(file, i) && Minor(file, i) == highest && DigitsEnd(file, i + |PREFIX|) <= ScanEnd(i, |file|)
  {
    hide MinorUpTo, ScanEnd, DigitsEnd;
    forall i: nat | MatchAt(file, i)
      ensures Seen(file, i, |file|) && SeenMinor(file, i, |file|) <= Minor(file, i)
      ensures DigitsEnd(file, i + |PREFIX|) <= ScanEnd(i, |file|) ==> SeenMinor(file, i, |file|) == Minor(file, i)
      ensures DigitsEnd(file, i + |PREFIX|) > ScanEnd(i, |file|) ==> 10 * SeenMinor(file, i, |file|) <= Minor(file, i)
    {
      ViewOfMatch(file, i);
    }
    if scanned > 0 {
      var i :| Seen(file, i, |file|) && SeenMinor(file, i, |file|) == scanned;
      assert MatchAt(file, i) && i >= 0;
    }
  }

  lemma ViewOfMatch(file: string, i: nat)
    requires MatchAt(file, i)
    ensures Seen(file, i, |file|) && SeenMinor(file, i, |file|) <= Minor(file, i)
    ensures DigitsEnd(file, i + |PREFIX|) <= ScanEnd(i, |file|) ==> SeenMinor(file, i, |file|) == Minor(file, i)
    ensures DigitsEnd(file, i + |PREFIX|) > ScanEnd(i, |file|) ==> 10 * SeenMinor(file, i, |file|) <= Minor(file, i)
  {
    MinorGrows(file, i, ScanEnd(i, |file|), |file|);
  }

  /** So on files whose digit runs have at most 9 digits the scan is exact. */
  lemma ShortRunsAreExact(file: string, scanned: nat, highest: nat)
    requires Scanned(file, |file|, scanned) && Highest(file, highest)
    requires forall i: nat | MatchAt(file, i) :: DigitsEnd(file, i + |PREFIX|) <= i + |PREFIX| + 9
    ensures scanned == highest
  {
    hide ScanEnd, DigitsEnd, Minor, Scanned;
    ScanIsHighestIff(file, scanned, highest);
    forall i: nat | MatchAt(file, i)
      ensures DigitsEnd(file, i + |PREFIX|) <= ScanEnd(i, |file|)
    {
      ScanEndIsFar(i, |file|);
    }
  }

  lemma ScanEndIsFar(i: nat, length: nat)
    requires i < length
    ensures ScanEnd(i, length) == length || i + GLIBC_TAIL < ScanEnd(i, length)
  {
  }

  /** A ten-digit run that starts 17 bytes before the end of a chunk is cut after nine digits. */
  function CutFile(): string {
    seq(CHUNK - 17, i => 'x') + CutMatch()
  }

  function CutMatch(): string {
    "GLIBC_2.1234567891"
  }

  lemma LongRunIsCut(scanned: nat, highest: nat)
    requires Scanned(CutFile(), |CutFile()|, scanned) && Highest(CutFile(), highest)
    ensures scanned < highest
  {
    hide Scanned, Highest, DigitsEnd, Minor, CutFile, ScanEnd;
    var file, start: nat := CutFile(), CHUNK - 17;
    CutFileHasOneMatch();
    ScanIsHighestIff(file, scanned, highest);
    HighestOfOne(file, start, highest);
  }

  lemma HighestOfOne(file: string, i: nat, highest: nat)
    requires Highest(file, highest) && MatchAt(file, i) && forall j: nat | MatchAt(file, j) :: j == i
    ensures highest == Minor(file, i)
  {
  }

  lemma CutFileHasOneMatch()
    ensures
      var file, start: nat := CutFile(), CHUNK - 17;
      && MatchAt(file, start) && Minor(file, start) > 0 && (forall i: nat | MatchAt(file, i) :: i == start)
      && DigitsEnd(file, start + |PREFIX|) > ScanEnd(start, |file|)
  {
    hide DigitsEnd, Minor;
    var file, start: nat := CutFile(), CHUNK - 17;
    var digits := start + |PREFIX|;
    assert |file| == CHUNK + 1;
    assert forall j :: start <= j < |file| ==> file[j] == CutMatch()[j - start];
    assert forall j :: 0 <= j < 18 ==> if j < 8 then CutMatch()[j] == PREFIX[j] else IsDigit(CutMatch()[j]);
    assert file[start..digits] == PREFIX;
    MinorToTheEnd(file, start);
    forall i: nat | MatchAt(file, i)
      ensures i == start
    {
      assert file[i] == file[i..i + |PREFIX|][0] == 'G';
    }
  }

  lemma MinorToTheEnd(s: string, i: nat)
    requires MatchAt(s, i) && forall j :: i + |PREFIX| <= j < |s| ==> IsDigit(s[j])
    ensures DigitsEnd(s, i + |PREFIX|) == |s|
    ensures s[|s| - 1] != '0' ==> Minor(s, i) > 0
  {
  }

  // ---- What the numbers are ----

  /** The decimal text of a number. */
  function Printed(n: nat): string {
    if n < 10 then ["0123456789"[n]] else Printed(n / 10) + ["0123456789"[n % 10]]
  }

  function Zeros(k: nat): string {
    if k == 0 then "" else "0" + Zeros(k - 1)
  }

  lemma DigitOf(d: nat)
    requires d < 10
    ensures IsDigit("0123456789"[d]) && "0123456789"[d] as int == '0' as int + d
  {
    assert "0123456789"[d] == ['0', '1', '2', '3', '4', '5', '6', '7', '8', '9'][d];
  }

  lemma DecimalSnoc(s: string, c: char)
    requires Digits(s) && IsDigit(c)
    ensures Digits(s + [c]) && Decimal(s + [c]) == Decimal(s) * 10 + (c as int - '0' as int)
  {
    assert (s + [c])[..|s|] == s;
  }

  /** Reading undoes printing, also behind leading zeros. */
  lemma {:induction false} DecimalReadsPrinted(n: nat, zeros: nat)
    ensures Digits(Zeros(zeros) + Printed(n)) && Decimal(Zeros(zeros) + Printed(n)) == n
    decreases n, zeros
  {
    hide Printed, Zeros, Decimal, Digits, IsDigit;
    PrintedSnoc(n / 10, n % 10);
    DigitIsDigit('0' + (n % 10) as char, n % 10);
    var front := if n < 10 then "" else Printed(n / 10);
    assert Zeros(zeros) + Printed(n) == Zeros(zeros) + front + ['0' + (n % 10) as char];
    if n >= 10 {
      DecimalReadsPrinted(n / 10, zeros);
    } else {
      OnlyZeros(zeros);
      assert Zeros(zeros) + front == Zeros(zeros);
    }
    DecimalSnoc(Zeros(zeros) + front, '0' + (n % 10) as char);
  }

  lemma DigitIsDigit(c: char, d: nat)
    requires d < 10 && c == '0' + d as char
    ensures IsDigit(c) && c as int - '0' as int == d
  {
  }

  lemma {:induction false} OnlyZeros(k: nat)
    ensures Digits(Zeros(k)) && Decimal(Zeros(k)) == 0 && Zeros(k + 1) == Zeros(k) + "0"
  {
    if k > 0 {
      OnlyZeros(k - 1);
      DecimalSnoc(Zeros(k - 1), '0');
    }
  }

  /** And every text of digits is a printed number behind some zeros. */
  lemma {:induction false} DigitsArePrinted(s: string) returns (zeros: nat)
    requires s != "" && Digits(s)
    ensures s == Zeros(zeros) + Printed(Decimal(s))
  {
    hide Printed, Zeros, Decimal;
    var front, c := s[..|s| - 1], s[|s| - 1];
    var d := c as int - '0' as int;
    assert s == front + [c];
    DecimalSnoc(front, c);
    PrintedSnoc(Decimal(front), d);
    NoZeros();
    if front == "" {
      zeros := 0;
      assert s == Zeros(0) + [c];
    } else {
      zeros := DigitsArePrinted(front);
      if Decimal(front) == 0 {
        OnlyZeros(zeros);
        zeros := zeros + 1;
      }
    }
  }

  lemma PrintedSnoc(n: nat, d: nat)
    requires d < 10
    ensures Printed(10 * n + d) == (if n == 0 then "" else Printed(n)) + ['0' + d as char]
    ensures Printed(0) == "0"
  {
    DigitOf(d);
  }

  lemma NoZeros()
    ensures Zeros(0) == "" && Decimal("") == 0
  {
  }

  /** The file asks for minor n: a prefix, the number, perhaps behind zeros, and then no digit. */
  ghost predicate Mentions(file: string, n: nat) {
    exists i: nat, zeros: nat :: MentionsAt(file, n, i, zeros)
  }

  ghost predicate MentionsAt(file: string, n: nat, i: nat, zeros: nat) {
    var text := "GLIBC_2." + Zeros(zeros) + Printed(n);
    && i + |text| <= |file| && file[i..i + |text|] == text
    && (i + |text| < |file| ==> !('0' <= file[i + |text|] <= '9'))
  }

  lemma MentionIsMatch(file: string, n: nat, i: nat, zeros: nat)
    requires MentionsAt(file, n, i, zeros)
    ensures MatchAt(file, i) && Minor(file, i) == n
  {
    hide Printed, Zeros, Decimal;
    var number, digits := Zeros(zeros) + Printed(n), i + |PREFIX|;
    DecimalReadsPrinted(n, zeros);
    PrintedIsNotEmpty(n);
    assert "GLIBC_2." + Zeros(zeros) + Printed(n) == PREFIX + number;
    var text := PREFIX + number;
    assert file[i..digits] == text[..|PREFIX|] == PREFIX;
    assert file[digits..i + |text|] == text[|PREFIX|..] == number;
    assert forall k :: 0 <= k < |number| ==> file[digits + k] == number[k];
    assert file[digits] == number[0];
    EndOfDigits(file, digits, i + |text|);
  }

  lemma PrintedIsNotEmpty(n: nat)
    ensures |Printed(n)| > 0
  {
  }

  lemma {:induction false} EndOfDigits(s: string, i: nat, stop: nat)
    requires i <= stop <= |s| && (forall k :: i <= k < stop ==> IsDigit(s[k])) && (stop < |s| ==> !IsDigit(s[stop]))
    ensures DigitsEnd(s, i) == stop
    decreases stop - i
  {
    if i < stop {
      EndOfDigits(s, i + 1, stop);
    }
  }

  lemma MatchIsMention(file: string, i: nat) returns (zeros: nat)
    requires MatchAt(file, i)
    ensures MentionsAt(file, Minor(file, i), i, zeros)
  {
    hide Printed, Zeros, Decimal;
    var digits := i + |PREFIX|;
    var stop := DigitsEnd(file, digits);
    var number := file[digits..stop];
    zeros := DigitsArePrinted(number);
    var text := "GLIBC_2." + Zeros(zeros) + Printed(Decimal(number));
    assert text == PREFIX + number;
    assert file[i..stop] == file[i..digits] + file[digits..stop];
  }

  /** With digit runs of at most nine digits, the scan of a file is 0 or a minor that the file asks
      for, and no minor that it asks for is higher. */
  lemma ScanIsHighestMention(file: string, scanned: nat)
    requires Scanned(file, |file|, scanned)
    requires forall i: nat | MatchAt(file, i) :: DigitsEnd(file, i + |PREFIX|) <= i + |PREFIX| + 9
    ensures scanned == 0 || Mentions(file, scanned)
    ensures forall n: nat | Mentions(file, n) :: n <= scanned
  {
    hide ScanEnd, DigitsEnd, Minor, MatchAt, MentionsAt, Decimal;
    forall i: nat | MatchAt(file, i)
      ensures Seen(file, i, |file|) && SeenMinor(file, i, |file|) == Minor(file, i)
    {
      ScanEndIsFar(i, |file|);
      ViewOfMatch(file, i);
    }
    forall n: nat | Mentions(file, n)
      ensures n <= scanned
    {
      var i: nat, zeros: nat :| MentionsAt(file, n, i, zeros);
      MentionIsMatch(file, n, i, zeros);
    }
    if scanned > 0 {
      var i :| Seen(file, i, |file|) && SeenMinor(file, i, |file|) == scanned;
      SeenIsIndex(file, i, |file|);
      var zeros := MatchIsMention(file, i);
    }
  }

  /** A file that asks for the minors 17 and 34 gets 34. */
  method HigherOfTwo() returns (minor: nat)
    ensures minor == 34
  {
    var file := "GLIBC_2.17 GLIBC_2.34";
    minor := MaxGlibcMinor(file);
    TwoMatches(file);
    ScanIsHighestMention(file, minor);
  }

  lemma TwoMatches(file: string)
    requires file == "GLIBC_2.17 GLIBC_2.34"
    ensures forall i: nat | MatchAt(file, i) :: DigitsEnd(file, i + |PREFIX|) <= i + |PREFIX| + 9
    ensures Mentions(file, 34) && forall n: nat | Mentions(file, n) :: n <= 34
  {
    hide Decimal;
    assert |file| == 21;
    assert forall k :: 0 <= k < |file| ==> (file[k] == 'G' <==> k == 0 || k == 11);
    forall i: nat | MatchAt(file, i)
      ensures i == 0 || i == 11
    {
      assert file[i] == file[i..i + |PREFIX|][0] == 'G';
    }
    EndOfDigits(file, 8, 10);
    EndOfDigits(file, 19, 21);
    PrintedTwoDigits(17);
    PrintedTwoDigits(34);
    assert MentionsAt(file, 17, 0, 0) && MentionsAt(file, 34, 11, 0);
    forall n: nat | Mentions(file, n)
      ensures n <= 34
    {
      var i: nat, zeros: nat :| MentionsAt(file, n, i, zeros);
      MentionIsMatch(file, n, i, zeros);
      MentionIsMatch(file, 17, 0, 0);
      MentionIsMatch(file, 34, 11, 0);
    }
  }

  lemma PrintedTwoDigits(n: nat)
    requires 10 <= n < 100
    ensures Printed(n) == ['0' + (n / 10) as char, '0' + (n % 10) as char] && Zeros(0) == ""
  {
    DigitOf(n / 10);
    DigitOf(n % 10);
  }
}
