/**
  The text operations the output file name is built from: Python's `str.split`
  with a one-character separator and its inverse `str.join`, the final component of a
  POSIX path as `pathlib` computes it, and zero-padded decimal numerals.
 */
module Strings {

  // ---------------------------------------------------------------------------
  // str.split / str.join

  /**
    `s.split(sep)`: the pieces of `s` between occurrences of `sep`. There is always
    at least one piece, no piece contains `sep`, and the first piece is the longest
    prefix of `s` without `sep`.
   */
  function Split(s: string, sep: char): (parts: seq<string>)
    ensures |parts| >= 1
    ensures forall i :: 0 <= i < |parts| ==> sep !in parts[i]
    ensures parts[0] <= s && (|parts[0]| == |s| || s[|parts[0]|] == sep)
    decreases |s|
  {
    if s == [] then [""]
    else
      var rest := Split(s[1..], sep);
      if s[0] == sep then [""] + rest
      else [[s[0]] + rest[0]] + rest[1..]
  }

  /** `sep.join(parts)`. */
  function Join(parts: seq<string>, sep: char): (s: string)
    decreases |parts|
  {
    if parts == [] then ""
    else if |parts| == 1 then parts[0]
    else parts[0] + [sep] + Join(parts[1..], sep)
  }

  /** Joining the pieces of a split gives back the string. */
  lemma {:induction false} JoinSplit(s: string, sep: char)
    ensures Join(Split(s, sep), sep) == s
    decreases |s|
  {
    if s != [] {
      var rest := Split(s[1..], sep);
      JoinSplit(s[1..], sep);
      if s[0] == sep {
        assert ([""] + rest)[1..] == rest;
      } else {
        var parts := [[s[0]] + rest[0]] + rest[1..];
        assert parts[1..] == rest[1..];
        if |rest| > 1 {
          assert Join(rest, sep) == rest[0] + [sep] + Join(rest[1..], sep);
        }
      }
    }
  }

  /** A string without the separator splits into itself alone. */
  lemma {:induction false} SplitWithoutSeparator(x: string, sep: char)
    requires sep !in x
    ensures Split(x, sep) == [x]
    decreases |x|
  {
    if x != [] {
      assert sep !in x[1..];
      SplitWithoutSeparator(x[1..], sep);
      assert [x[0]] + x[1..] == x;
    }
  }

  /** A separator-free prefix followed by the separator is split off as the first piece. */
  lemma {:induction false} SplitAtSeparator(x: string, sep: char, y: string)
    requires sep !in x
    ensures Split(x + [sep] + y, sep) == [x] + Split(y, sep)
    decreases |x|
  {
    if x == [] {
      assert x + [sep] + y == [sep] + y;
      assert ([sep] + y)[1..] == y;
    } else {
      assert (x + [sep] + y)[1..] == x[1..] + [sep] + y;
      assert sep !in x[1..];
      SplitAtSeparator(x[1..], sep, y);
      assert [x[0]] + x[1..] == x;
    }
  }

  /** Splitting a join of separator-free pieces gives back the pieces. */
  lemma {:induction false} SplitJoin(parts: seq<string>, sep: char)
    requires |parts| >= 1
    requires forall i :: 0 <= i < |parts| ==> sep !in parts[i]
    ensures Split(Join(parts, sep), sep) == parts
    decreases |parts|
  {
    if |parts| == 1 {
      SplitWithoutSeparator(parts[0], sep);
    } else {
      SplitJoin(parts[1..], sep);
      SplitAtSeparator(parts[0], sep, Join(parts[1..], sep));
      assert [parts[0]] + parts[1..] == parts;
    }
  }

  // ---------------------------------------------------------------------------
  // pathlib.PurePosixPath(p).name

  /** A path component that `pathlib` discards: an empty one (from repeated or trailing slashes) or ".". */
  predicate Discarded(c: string) {
    c == "" || c == "."
  }

  /** Every component is discarded. */
  predicate AllDiscarded(comps: seq<string>) {
    forall i :: 0 <= i < |comps| ==> Discarded(comps[i])
  }

  /** The last component of `comps` that is not discarded, or "" when every one is. */
  function LastKept(comps: seq<string>): (name: string)
    ensures name != "."
    decreases |comps|
  {
    if comps == [] then ""
    else if Discarded(comps[|comps| - 1]) then LastKept(comps[..|comps| - 1])
    else comps[|comps| - 1]
  }

  /** `LastKept` finds nothing exactly when every component is discarded. */
  lemma {:induction false} LastKeptEmpty(comps: seq<string>)
    ensures LastKept(comps) == "" <==> AllDiscarded(comps)
    decreases |comps|
  {
    if comps != [] {
      var front := comps[..|comps| - 1];
      LastKeptEmpty(front);
      assert forall i :: 0 <= i < |front| ==> front[i] == comps[i];
    }
  }

  /** What `LastKept` finds is a component after which every component is discarded. */
  lemma {:induction false} LastKeptPosition(comps: seq<string>)
    requires LastKept(comps) != ""
    ensures exists i :: 0 <= i < |comps| && comps[i] == LastKept(comps) && AllDiscarded(comps[i + 1..])
    decreases |comps|
  {
    var n := |comps|;
    var last := comps[n - 1];
    if Discarded(last) {
      var front := comps[..n - 1];
      assert LastKept(comps) == LastKept(front);
      LastKeptPosition(front);
      var i :| 0 <= i < |front| && front[i] == LastKept(front) && AllDiscarded(front[i + 1..]);
      var after := comps[i + 1..];
      assert AllDiscarded(after) by {
        forall j | 0 <= j < |after| ensures Discarded(after[j]) {
          assert after[j] == comps[i + 1 + j];
          if i + 1 + j < n - 1 {
            assert comps[i + 1 + j] == front[i + 1..][j];
          }
        }
      }
      assert comps[i] == front[i];
      assert 0 <= i < n && comps[i] == LastKept(comps) && AllDiscarded(comps[i + 1..]);
    } else {
      assert AllDiscarded(comps[n..]);
      assert comps[n - 1] == LastKept(comps);
    }
  }

  /**
    `PurePosixPath(p).name`: the last component of the path once empty and "."
    components are discarded, or "" when none is left (as for "" and "/").
   */
  function PathName(p: string): (name: string)
    ensures '/' !in name && name != "."
    ensures name == "" <==> AllDiscarded(Split(p, '/'))
    ensures name != "" ==>
              exists i :: 0 <= i < |Split(p, '/')| && Split(p, '/')[i] == name && AllDiscarded(Split(p, '/')[i + 1..])
  {
    var comps := Split(p, '/');
    LastKeptEmpty(comps);
    if LastKept(comps) != "" then LastKeptPosition(comps); LastKept(comps)
    else LastKept(comps)
  }

  // ---------------------------------------------------------------------------
  // Zero-padded decimal numerals

  function Pow10(k: nat): (r: nat)
    ensures r >= 1
  {
    if k == 0 then 1 else 10 * Pow10(k - 1)
  }

  predicate IsDigit(c: char) {
    '0' <= c <= '9'
  }

  predicate AllDigits(s: string) {
    forall i :: 0 <= i < |s| ==> IsDigit(s[i])
  }

  /** The value of a string of decimal digits, most significant first. */
  function DecimalValue(s: string): (v: nat)
    requires AllDigits(s)
    decreases |s|
  {
    if s == [] then 0
    else 10 * DecimalValue(s[..|s| - 1]) + (s[|s| - 1] as int - '0' as int)
  }

  /**
    The numeral of `n` padded with leading zeros to `width` digits, as the `%m`, `%d`,
    `%H`, `%M`, `%S` and `%Y` directives of `strftime` write it.
   */
  function ZeroPadded(n: nat, width: nat): (s: string)
    requires n < Pow10(width)
    ensures |s| == width && AllDigits(s)
    decreases width
  {
    if width == 0 then ""
    else ZeroPadded(n / 10, width - 1) + [('0' as int + n % 10) as char]
  }

  /** Reading a padded numeral gives back the number. */
  lemma {:induction false} ZeroPaddedValue(n: nat, width: nat)
    requires n < Pow10(width)
    ensures DecimalValue(ZeroPadded(n, width)) == n
    decreases width
  {
    if width > 0 {
      var s := ZeroPadded(n, width);
      ZeroPaddedValue(n / 10, width - 1);
      assert s[..|s| - 1] == ZeroPadded(n / 10, width - 1);
    }
  }


  /** Every string of digits is the padded numeral of its own value. */
  lemma {:induction false} PaddedDecimalValue(s: string)
    requires AllDigits(s)
    ensures DecimalValue(s) < Pow10(|s|)
    ensures ZeroPadded(DecimalValue(s), |s|) == s
    decreases |s|
  {
    if s != [] {
      var front := s[..|s| - 1];
      var d := s[|s| - 1] as int - '0' as int;
      PaddedDecimalValue(front);
      var v := DecimalValue(s);
      assert v == 10 * DecimalValue(front) + d;
      assert v / 10 == DecimalValue(front) && v % 10 == d;
      assert s == front + [s[|s| - 1]];
    }
  }

}
