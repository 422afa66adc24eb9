/**
 * The duration formatter of the chat front end (`format_time` in app.py):
 * a whole number of seconds rendered as "Hh Mm Ss", "Mm Ss" or "Ss", with the
 * leading zero-valued units left out.
 */
module TimeFormat {
  import opened Text

  /**
   * `format_time` from the already rounded number of seconds onward.  Hours,
   * minutes and seconds come from division and remainder by 3600 and 60;
   * Dafny's `/` and `%` with a positive divisor are Python's `//` and `%`, so
   * a negative argument behaves as it does in the source.
   */
  function FormatTime(totalSeconds: int): (r: string)
    ensures r != [] && r[|r| - 1] == 's'
  {
    var hours := totalSeconds / 3600;
    var remaining := totalSeconds % 3600;
    var minutes := remaining / 60;
    var seconds := remaining % 60;
    if hours > 0 then
      NatToString(hours) + "h " + NatToString(minutes) + "m " + NatToString(seconds) + "s"
    else if minutes > 0 then
      NatToString(minutes) + "m " + NatToString(seconds) + "s"
    else
      NatToString(seconds) + "s"
  }

  /** One unit of a duration: its count and the letter written after it. */
  datatype Unit = Unit(count: nat, letter: char)

  /** A unit written as its count followed by its letter, as in "5m". */
  function Group(u: Unit): string {
    NatToString(u.count) + [u.letter]
  }

  function Groups(us: seq<Unit>): (gs: seq<string>)
    ensures |gs| == |us|
  {
    if us == [] then [] else [Group(us[0])] + Groups(us[1..])
  }

  /** The units from the first non-zero one on; the last unit is always kept. */
  function Significant(us: seq<Unit>): (r: seq<Unit>)
    requires us != []
    ensures r != [] && |r| <= |us| && r == us[|us| - |r|..]
    ensures forall i :: 0 <= i < |us| - |r| ==> us[i].count == 0
    ensures |r| > 1 ==> r[0].count != 0
  {
    if |us| > 1 && us[0].count == 0 then Significant(us[1..]) else us
  }

  /** Hours, minutes and seconds of a non-negative number of seconds. */
  function Clock(n: nat): (us: seq<Unit>)
    ensures |us| == 3 && us[1].count < 60 && us[2].count < 60
    ensures n == us[0].count * 3600 + us[1].count * 60 + us[2].count
  {
    var remaining := n % 3600;
    assert n == n / 3600 * 3600 + remaining;
    assert remaining == remaining / 60 * 60 + remaining % 60;
    [Unit(n / 3600, 'h'), Unit(remaining / 60, 'm'), Unit(remaining % 60, 's')]
  }

  lemma JoinThree(a: string, b: string, c: string)
    ensures Join(" ", [a + "h", b + "m", c + "s"]) == a + "h " + b + "m " + c + "s"
  {
    assert [a + "h", b + "m", c + "s"][1..] == [b + "m", c + "s"];
    JoinTwo(b, c);
  }

  lemma JoinTwo(b: string, c: string)
    ensures Join(" ", [b + "m", c + "s"]) == b + "m " + c + "s"
  {
    assert [b + "m", c + "s"][1..] == [c + "s"];
  }

  /**
   * The formatter writes the hours, minutes and seconds of the count, leaving out
   * the leading zero-valued units (seconds are always written).
   */
  lemma FormatTimeOmitsLeadingZeros(n: nat)
    ensures FormatTime(n) == Join(" ", Groups(Significant(Clock(n))))
  {
    var us := Clock(n);
    var h, m, s := us[0].count, us[1].count, us[2].count;
    var H, M, S := NatToString(h), NatToString(m), NatToString(s);
    assert Group(us[0]) == H + "h" && Group(us[1]) == M + "m" && Group(us[2]) == S + "s";
    assert us[1..][1..] == [us[2]];
    assert Groups([us[2]]) == [S + "s"];
    assert Groups(us[1..]) == [M + "m", S + "s"];
    if h > 0 {
      assert Groups(us) == [H + "h", M + "m", S + "s"];
      JoinThree(H, M, S);
    } else if m > 0 {
      JoinTwo(M, S);
    }
  }

  /** Examples: seconds only, then minutes, then hours. */
  lemma FormatTimeSeconds()
    ensures FormatTime(0) == "0s" && FormatTime(5) == "5s"
  {
  }

  lemma FormatTimeMinutes()
    ensures FormatTime(60) == "1m 0s" && FormatTime(65) == "1m 5s"
  {
    assert NatToString(1) == "1";
  }

  lemma FormatTimeHours()
    ensures FormatTime(3600) == "1h 0m 0s" && FormatTime(3661) == "1h 1m 1s"
  {
    assert NatToString(1) == "1" && NatToString(0) == "0";
  }

  /** A negative count behaves as Python's floor division makes it: -5 is 59 minutes 55 seconds. */
  lemma FormatTimeNegative()
    ensures FormatTime(-5) == "59m 55s"
  {
    assert -5 / 3600 == -1 && -5 % 3600 == 3595;
    assert NatToString(55) == "55" by { assert NatToString(5) == "5"; }
    assert NatToString(59) == "59" by { assert NatToString(5) == "5"; }
  }
}
