/**
 Reading one dweller record: a name, one separator character and seven stat digits, one
 per room in the order of RoomLetters, where the digit '0' stands for stat 10.
 */
module Records {
  import opened Fallout

  /** The position k characters before the end of s, clamped at 0 as a negative slice bound is. */
  function FromEnd(s: string, k: nat): (p: nat)
    ensures p <= |s|
  {
    if |s| >= k then |s| - k else 0
  }

  predicate IsDigit(c: char)
  {
    '0' <= c <= '9'
  }

  /** The stat a digit stands for: '1' to '9' are themselves and '0' is 10. */
  function StatValue(c: char): (v: int)
    requires IsDigit(c)
    ensures 1 <= v <= 10
    ensures v == 10 <==> c == '0'
  {
    if c == '0' then 10 else c as int - '0' as int
  }

  /** The digit that stands for stat v. */
  function StatDigit(v: int): (c: char)
    requires 1 <= v <= 10
    ensures IsDigit(c)
  {
    if v == 10 then '0' else ('0' as int + v) as char
  }

  /** Digits and stats are in one-to-one correspondence. */
  lemma DigitRoundTrip(c: char, v: int)
    requires IsDigit(c) && 1 <= v <= 10
    ensures StatValue(StatDigit(v)) == v
    ensures StatDigit(StatValue(c)) == c
  {
  }

  /**
   The stats a run of digits stands for, one per character; None as soon as some
   character is not a digit.
   */
  function StatsOf(t: string): (r: Option<seq<int>>)
    ensures r.Some? <==> forall i :: 0 <= i < |t| ==> IsDigit(t[i])
    ensures r.Some? ==> |r.value| == |t| && forall i :: 0 <= i < |t| ==> r.value[i] == StatValue(t[i])
  {
    if t == [] then Some([])
    else
      var c := t[|t| - 1];
      match StatsOf(t[..|t| - 1])
      case None => None
      case Some(vs) => if IsDigit(c) then Some(vs + [StatValue(c)]) else None
  }

  /**
   The dweller a record stands for: the name is all but the last eight characters, the
   stats are the last seven; a record shorter than that gives an empty name and fewer
   stats. None when a stat character is not a digit.
   */
  function DwellerOf(s: string): (r: Option<Dweller>)
  {
    match StatsOf(s[FromEnd(s, 7)..])
    case None => None
    case Some(vs) => Some(Dweller(s[..FromEnd(s, 8)], vs))
  }

  /**
   Reads the last seven characters one at a time: '0' gives 10, another digit its own
   value, and a non-digit gives None.
   */
  method ReadDweller(s: string) returns (r: Option<Dweller>)
    ensures r == DwellerOf(s)
  {
    var name := s[..FromEnd(s, 8)];
    var tail := s[FromEnd(s, 7)..];
    var stats: seq<int> := [];
    for i := 0 to |tail|
      invariant StatsOf(tail[..i]) == Some(stats)
    {
      var c := tail[i];
      assert tail[..i + 1][..i] == tail[..i];
      if c == '0' {
        stats := stats + [10];
      } else if IsDigit(c) {
        stats := stats + [c as int - '0' as int];
      } else {
        StatsNone(tail, i + 1);
        return None;
      }
    }
    assert tail[..|tail|] == tail;
    return Some(Dweller(name, stats));
  }

  /** A non-digit among the first n characters makes the whole run unreadable. */
  lemma StatsNone(t: string, n: nat)
    requires 0 < n <= |t| && !IsDigit(t[n - 1])
    ensures StatsOf(t) == None
  {
  }

  /** The record of a dweller: its name, one separator, then one digit per stat. */
  function Line(name: string, sep: char, stats: seq<int>): (s: string)
    requires forall i :: 0 <= i < |stats| ==> 1 <= stats[i] <= 10
    ensures |s| == |name| + 1 + |stats|
  {
    name + [sep] + seq(|stats|, i requires 0 <= i < |stats| => StatDigit(stats[i]))
  }

  /**
   Reading the record written for a dweller with seven stats between 1 and 10 gives the
   dweller back, whatever its name and the separator.
   */
  lemma ReadRecord(dw: Dweller, sep: char)
    requires Complete(dw) && forall r: Room :: 1 <= dw.stats[r] <= 10
    ensures DwellerOf(Line(dw.name, sep, dw.stats)) == Some(dw)
  {
    var s := Line(dw.name, sep, dw.stats);
    assert FromEnd(s, 8) == |dw.name|;
    assert s[..|dw.name|] == dw.name;
    var tail := s[FromEnd(s, 7)..];
    forall i | 0 <= i < 7
      ensures IsDigit(tail[i]) && StatValue(tail[i]) == dw.stats[i]
    {
      assert tail[i] == StatDigit(dw.stats[i]);
      DigitRoundTrip('0', dw.stats[i]);
    }
    var vs := StatsOf(tail).value;
    assert vs == dw.stats;
  }

  /**
   A record gives a dweller with a stat for every room exactly when it has at least seven
   characters and its last seven are digits.
   */
  lemma ReadComplete(s: string)
    ensures DwellerOf(s).Some? && Complete(DwellerOf(s).value) <==>
      |s| >= 7 && forall i :: |s| - 7 <= i < |s| ==> IsDigit(s[i])
  {
  }
}
