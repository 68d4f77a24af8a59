/**
  The date label of the watch face: the "%b %d" text `strftime` writes
  into a 30-character buffer ("Jan 05"), and the in-place removal of a
  leading zero from the day (src/obsidian.c, the two-byte `memcpy` after
  the `strftime` call). `strftime` itself is not part of this model: its
  output is built by `FormatMonthDay` from the month abbreviation and day.
 */
module DateText {

  /** The size of `buffer_1`. */
  const BufferSize: nat := 30

  const Nul: char := '\0'

  function Digit(d: int): (c: char)
    requires 0 <= d <= 9
  {
    (d + '0' as int) as char
  }

  /** What `strftime(buf, 30, "%b %d", t)` leaves in the buffer: the
      three-letter month, a space, the day as two digits, a terminating
      NUL, and the untouched remainder of the buffer. */
  function FormatMonthDay(month: string, day: int, rest: seq<char>): (buf: seq<char>)
    requires |month| == 3 && 1 <= day <= 31 && |rest| == BufferSize - 7
    ensures |buf| == BufferSize
  {
    month + [' ', Digit(day / 10), Digit(day % 10), Nul] + rest
  }

  /** Removes a leading zero from the day: when character 4 is '0', the
      two characters after it (the last digit and the NUL) move one place
      to the left; character 6 keeps its value. */
  function StripLeadingZero(buf: seq<char>): (r: seq<char>)
    requires |buf| >= 7
    ensures |r| == |buf|
    ensures r[..4] == buf[..4] && r[6..] == buf[6..]
    ensures buf[4] != '0' ==> r == buf
  {
    if buf[4] == '0' then buf[..4] + [buf[5], buf[6]] + buf[6..] else buf
  }

  /** The text a C string buffer holds: everything before the first NUL. */
  function CString(s: seq<char>): (t: seq<char>)
    ensures |t| <= |s| && t == s[..|t|]
    ensures Nul !in t
    ensures |t| < |s| ==> s[|t|] == Nul
  {
    if |s| == 0 || s[0] == Nul then [] else [s[0]] + CString(s[1..])
  }

  /** The day in decimal without a leading zero. */
  function Decimal(day: int): (t: string)
    requires 1 <= day <= 31
  {
    if day < 10 then [Digit(day)] else [Digit(day / 10), Digit(day % 10)]
  }

  /** A C string whose first NUL is at index n reads as its first n
      characters. */
  lemma {:induction false} CStringUpTo(s: seq<char>, n: nat)
    requires n < |s| && s[n] == Nul && Nul !in s[..n]
    ensures CString(s) == s[..n]
  {
    if n > 0 {
      assert s[0] == s[..n][0];
      assert s[1..][..n - 1] == s[1..n];
      assert Nul !in s[1..n] by {
        assert forall i :: 0 <= i < n - 1 ==> s[1..n][i] == s[..n][i + 1];
      }
      CStringUpTo(s[1..], n - 1);
    }
  }

  /** After the strip the label reads "Mmm D" for days below ten and
      "Mmm DD" otherwise. */
  lemma StrippedLabel(month: string, day: int, rest: seq<char>)
    requires |month| == 3 && 1 <= day <= 31 && |rest| == BufferSize - 7
    requires Nul !in month
    ensures CString(StripLeadingZero(FormatMonthDay(month, day, rest))) == month + " " + Decimal(day)
  {
    var buf := FormatMonthDay(month, day, rest);
    var r := StripLeadingZero(buf);
    if day < 10 {
      assert buf[4] == '0' && buf[5] == Digit(day) && buf[6] == Nul;
      assert r[..5] == month + [' ', Digit(day)];
      assert r[..5] == month + " " + Decimal(day);
      CStringUpTo(r, 5);
    } else {
      assert buf[4] != '0' && r == buf;
      assert r[..6] == month + [' ', Digit(day / 10), Digit(day % 10)];
      assert r[..6] == month + " " + Decimal(day);
      CStringUpTo(r, 6);
    }
  }

  /** Applied to its own output the strip changes nothing: the second
      digit of a day is never followed by another zero to remove. */
  lemma StripIdempotent(month: string, day: int, rest: seq<char>)
    requires |month| == 3 && 1 <= day <= 31 && |rest| == BufferSize - 7
    ensures var r := StripLeadingZero(FormatMonthDay(month, day, rest));
      StripLeadingZero(r) == r
  {
  }
}
