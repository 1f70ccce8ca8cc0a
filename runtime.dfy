/** The parts of the .NET base library that the flight code leans on:
    nullable references, the exceptions it can raise, fixed-width integers,
    DateTime and TimeSpan as tick counts, and the string operations
    Split, Trim, ToLower and Contains. */
module Runtime {

  /** A reference that may be null. */
  datatype Option<T> = None | Some(value: T)

  /** The exceptions the modelled code can raise or let escape. */
  datatype Exception =
    | NullReference                     // a member was read through a null reference
    | ArgumentOutOfRange                // Substring past the end, DateTime arithmetic past its range
    | ArgumentNull                      // a null dictionary key
    | DuplicateKey(key: string)         // ToDictionary met the same key twice
    | InvalidFields(id: string)         // the InvalidOperationException WriteChanges throws for an invalid
                                        // record, whose message reads "Can't add <id> due to invalid fields"
    | KeyConflict(key: string)          // the table already tracks a new record with this key
    | DbUpdate                          // SaveChanges refused a row whose key is already stored
    | TimeOutOfRange                    // SaveChanges met a span the SQL time column cannot hold

  /** The value of a call, or the exception it threw. */
  datatype Result<T> = Ok(value: T) | Throw(error: Exception)

  type Int16 = x: int | -0x8000 <= x < 0x8000
  type Int32 = x: int | -0x8000_0000 <= x < 0x8000_0000
  type Int64 = x: int | -0x8000_0000_0000_0000 <= x < 0x8000_0000_0000_0000

  // DateTime and TimeSpan are counts of 100-nanosecond ticks.
  const TicksPerMillisecond: int := 10_000
  const TicksPerSecond: int := 10_000_000
  const TicksPerHour: int := 36_000_000_000
  const TicksPerDay: int := 864_000_000_000

  /** DateTime.MaxValue.Ticks: the last tick of the year 9999. */
  const MaxDateTimeTicks: int := 3_155_378_975_999_999_999

  /** A DateTime, as ticks since 0001-01-01T00:00:00; the default value is 0. */
  type DateTime = t: int | 0 <= t <= MaxDateTimeTicks

  /** A TimeSpan, as a signed 64-bit tick count. */
  type TimeSpan = Int64

  /** 1970-01-01T00:00:00Z. */
  const UnixEpoch: DateTime := 621_355_968_000_000_000

  /** TimeSpan.Parse("23:59:59.9999999"): one tick short of a day. */
  const MaxTimeOfDay: TimeSpan := TicksPerDay - 1

  /** DateTime.AddMilliseconds with a whole number of milliseconds: the result
      must stay inside the DateTime range, or the call throws. */
  function AddMilliseconds(t: DateTime, ms: int): Result<DateTime>
  {
    var ticks := t + ms * TicksPerMillisecond;
    if 0 <= ticks <= MaxDateTimeTicks then Ok(ticks) else Throw(ArgumentOutOfRange)
  }

  /** TimeSpan.FromSeconds on a 32-bit count of seconds; it cannot overflow. */
  function FromSeconds(seconds: Int32): TimeSpan
  {
    seconds * TicksPerSecond
  }

  /** The first min(n, |s|) elements of s, none when n is not positive (Enumerable.Take). */
  function Take<T>(s: seq<T>, n: int): (r: seq<T>)
    ensures |r| == TakeCount(n, |s|) && r == s[..|r|]
  {
    s[..TakeCount(n, |s|)]
  }

  function TakeCount(n: int, len: nat): (c: nat)
    ensures c <= len
    ensures n <= 0 ==> c == 0
    ensures 0 < n ==> c == n || c == len
    ensures c == 0 || c <= n
  {
    if n <= 0 then 0 else if n < len then n else len
  }

  lemma AppendAssoc<T>(a: seq<T>, b: seq<T>, c: seq<T>)
    ensures (a + b) + c == a + (b + c)
  {
  }

  /** a is obtained from b by deleting elements, keeping the order of the rest. */
  predicate IsSubsequence<T(==)>(a: seq<T>, b: seq<T>)
    decreases |b|
  {
    |a| == 0 || (|b| > 0 && ((a[0] == b[0] && IsSubsequence(a[1..], b[1..])) || IsSubsequence(a, b[1..])))
  }

  lemma {:induction false} SubsequenceLength<T>(a: seq<T>, b: seq<T>)
    requires IsSubsequence(a, b)
    ensures |a| <= |b|
    decreases |b|
  {
    if |a| > 0 {
      if a[0] == b[0] && IsSubsequence(a[1..], b[1..]) {
        SubsequenceLength(a[1..], b[1..]);
      } else {
        SubsequenceLength(a, b[1..]);
      }
    }
  }

  lemma {:induction false} SubsequenceTransitive<T>(a: seq<T>, b: seq<T>, c: seq<T>)
    requires IsSubsequence(a, b) && IsSubsequence(b, c)
    ensures IsSubsequence(a, c)
    decreases |c|
  {
    if |a| > 0 {
      assert |b| > 0 && |c| > 0;
      if b[0] == c[0] && IsSubsequence(b[1..], c[1..]) {
        if a[0] == b[0] && IsSubsequence(a[1..], b[1..]) {
          SubsequenceTransitive(a[1..], b[1..], c[1..]);
        } else {
          SubsequenceTransitive(a, b[1..], c[1..]);
        }
      } else {
        SubsequenceTransitive(a, b, c[1..]);
      }
    }
  }

  lemma {:induction false} PrefixIsSubsequence<T>(s: seq<T>, n: nat)
    requires n <= |s|
    ensures IsSubsequence(s[..n], s)
    decreases n
  {
    if n > 0 {
      assert s[..n][0] == s[0] && s[..n][1..] == s[1..][..n - 1];
      PrefixIsSubsequence(s[1..], n - 1);
    }
  }

  /** Keeping an element at the end of both sequences keeps a subsequence. */
  lemma {:induction false} SubsequenceAppend<T>(a: seq<T>, b: seq<T>, x: T)
    requires IsSubsequence(a, b)
    ensures IsSubsequence(a + [x], b + [x])
    decreases |b|
  {
    if |a| == 0 {
      if |b| > 0 {
        SubsequenceAppend(a, b[1..], x);
        assert (b + [x])[1..] == b[1..] + [x];
      } else {
        assert (a + [x])[1..] == [] && (b + [x])[1..] == [];
      }
    } else {
      assert (a + [x])[0] == a[0] && (a + [x])[1..] == a[1..] + [x];
      assert (b + [x])[0] == b[0] && (b + [x])[1..] == b[1..] + [x];
      if a[0] == b[0] && IsSubsequence(a[1..], b[1..]) {
        SubsequenceAppend(a[1..], b[1..], x);
      } else {
        SubsequenceAppend(a, b[1..], x);
      }
    }
  }

  /** Adding an element at the end of the longer sequence keeps a subsequence. */
  lemma {:induction false} SubsequenceExtend<T>(a: seq<T>, b: seq<T>, x: T)
    requires IsSubsequence(a, b)
    ensures IsSubsequence(a, b + [x])
    decreases |b|
  {
    if |a| > 0 {
      assert (b + [x])[0] == b[0] && (b + [x])[1..] == b[1..] + [x];
      if a[0] == b[0] && IsSubsequence(a[1..], b[1..]) {
        SubsequenceExtend(a[1..], b[1..], x);
      } else {
        SubsequenceExtend(a, b[1..], x);
      }
    }
  }

  // ---------------------------------------------------------------------------
  // String.Split(char)

  /** s cut at every occurrence of sep; neighbouring or outer separators give
      empty parts, so there is always one part more than there are separators. */
  function Split(s: string, sep: char): (parts: seq<string>)
    ensures |parts| >= 1
  {
    if |s| == 0 then [""]
    else
      var rest := Split(s[1..], sep);
      if s[0] == sep then [""] + rest
      else [[s[0]] + rest[0]] + rest[1..]
  }

  /** String.Join(sep, parts). */
  function Join(parts: seq<string>, sep: char): string
    requires |parts| >= 1
    decreases |parts|
  {
    if |parts| == 1 then parts[0] else parts[0] + [sep] + Join(parts[1..], sep)
  }

  /** Joining the parts again gives back the string that was split. */
  lemma {:induction false} SplitJoin(s: string, sep: char)
    ensures Join(Split(s, sep), sep) == s
  {
    if |s| > 0 {
      var rest := Split(s[1..], sep);
      SplitJoin(s[1..], sep);
      if s[0] == sep {
        assert ([""] + rest)[1..] == rest;
      } else {
        var parts := [[s[0]] + rest[0]] + rest[1..];
        if |rest| > 1 {
          assert parts[1..] == rest[1..];
          assert Join(rest, sep) == rest[0] + [sep] + Join(rest[1..], sep);
        }
        assert Join(parts, sep) == [s[0]] + Join(rest, sep);
        assert [s[0]] + s[1..] == s;
      }
    }
  }

  /** No part contains the separator. */
  lemma {:induction false} SplitPartsFree(s: string, sep: char)
    ensures forall k :: 0 <= k < |Split(s, sep)| ==> sep !in Split(s, sep)[k]
  {
    if |s| > 0 {
      SplitPartsFree(s[1..], sep);
    }
  }

  /** There is one part more than there are separators. */
  lemma {:induction false} SplitCount(s: string, sep: char)
    ensures |Split(s, sep)| == multiset(s)[sep] + 1
  {
    if |s| > 0 {
      SplitCount(s[1..], sep);
      assert s == [s[0]] + s[1..];
      assert multiset(s) == multiset{s[0]} + multiset(s[1..]);
    }
  }

  /** A string without the separator is one part. */
  lemma {:induction false} SplitWhole(a: string, sep: char)
    requires sep !in a
    ensures Split(a, sep) == [a]
  {
    if |a| > 0 {
      SplitWhole(a[1..], sep);
      assert [a[0]] + a[1..] == a;
    }
  }

  /** The text before the first separator is the first part. */
  lemma {:induction false} SplitAtFirst(a: string, sep: char, b: string)
    requires sep !in a
    ensures Split(a + [sep] + b, sep) == [a] + Split(b, sep)
  {
    var s := a + [sep] + b;
    if |a| == 0 {
      assert s[1..] == b;
    } else {
      assert s[1..] == a[1..] + [sep] + b;
      SplitAtFirst(a[1..], sep, b);
      assert [a[0]] + a[1..] == a;
    }
  }

  // ---------------------------------------------------------------------------
  // String.Length and String.Substring(int)

  /** The UTF-16 code units of one character: two for a character outside the
      Basic Multilingual Plane (a surrogate pair), one for any other. */
  function CharUnits(c: char): nat
  {
    if c as int >= 0x1_0000 then 2 else 1
  }

  /** String.Length: the number of UTF-16 code units of s. */
  function Utf16Length(s: string): (n: nat)
    ensures |s| <= n <= 2 * |s|
    ensures IsBmp(s) ==> n == |s|
  {
    if s == [] then 0 else CharUnits(s[0]) + Utf16Length(s[1..])
  }

  /** A string of Basic Multilingual Plane characters has one unit per character. */
  predicate IsBmp(s: string)
  {
    forall k :: 0 <= k < |s| ==> s[k] as int < 0x1_0000
  }

  /** The characters of s after its first n UTF-16 code units. A cut inside
      a surrogate pair drops the whole pair, since a lone surrogate is not a
      character; a count past the end leaves nothing. */
  function DropUnits(s: string, n: nat): (r: string)
    ensures |r| <= |s| && r == s[|s| - |r|..]
  {
    if n == 0 || s == [] then s
    else if CharUnits(s[0]) <= n then
      var r := DropUnits(s[1..], n - CharUnits(s[0]));
      assert s[1..][|s| - 1 - |r|..] == s[|s| - |r|..];
      r
    else s[1..]
  }

  /** The UTF-16 code units of the first k characters of s. */
  function PrefixUnits(s: string, k: nat): nat
    requires k <= |s|
  {
    if k == 0 then 0 else CharUnits(s[0]) + PrefixUnits(s[1..], k - 1)
  }

  /** PrefixUnits(s, k) is String.Length of the first k characters, and at
      most String.Length of s. */
  lemma {:induction false} PrefixUnitsLength(s: string, k: nat)
    requires k <= |s|
    ensures PrefixUnits(s, k) == Utf16Length(s[..k]) <= Utf16Length(s)
  {
    if k > 0 {
      assert s[..k][0] == s[0] && s[..k][1..] == s[1..][..k - 1];
      PrefixUnitsLength(s[1..], k - 1);
    }
  }

  /** Dropping exactly the units of the first k characters leaves exactly
      the characters from position k on. */
  lemma {:induction false} DropUnitsAtBoundary(s: string, k: nat)
    requires k <= |s|
    ensures DropUnits(s, PrefixUnits(s, k)) == s[k..]
  {
    if k > 0 {
      DropUnitsAtBoundary(s[1..], k - 1);
      assert s[1..][k - 1..] == s[k..];
    }
  }

  /** A cut one unit into the surrogate pair of character k drops the whole
      character: what is left starts at position k + 1. */
  lemma {:induction false} DropUnitsInsidePair(s: string, k: nat)
    requires k < |s| && CharUnits(s[k]) == 2
    ensures DropUnits(s, PrefixUnits(s, k) + 1) == s[k + 1..]
  {
    if k > 0 {
      DropUnitsInsidePair(s[1..], k - 1);
      assert s[1..][k..] == s[k + 1..];
    }
  }

  /** On Basic Multilingual Plane text, dropping n units drops n characters. */
  lemma {:induction false} DropUnitsBmp(s: string, n: nat)
    requires IsBmp(s) && n <= |s|
    ensures DropUnits(s, n) == s[n..]
  {
    if n > 0 {
      assert IsBmp(s[1..]);
      DropUnitsBmp(s[1..], n - 1);
      assert s[1..][n - 1..] == s[n..];
    }
  }

  /** String.Substring(start): it throws when start is past the end of s. */
  function Substring(s: string, start: nat): (r: Result<string>)
    ensures r.Throw? <==> Utf16Length(s) < start
    ensures r.Throw? ==> r.error == ArgumentOutOfRange
    ensures r.Ok? ==> r.value == DropUnits(s, start)
  {
    if Utf16Length(s) < start then Throw(ArgumentOutOfRange) else Ok(DropUnits(s, start))
  }

  // ---------------------------------------------------------------------------
  // String.Trim()

  /** Char.IsWhiteSpace: the characters of Unicode's White_Space property. */
  predicate IsWhiteSpace(c: char)
  {
    ('\U{0009}' <= c <= '\U{000D}') || c == ' ' || c == '\U{0085}' || c == '\U{00A0}'
    || c == '\U{1680}' || ('\U{2000}' <= c <= '\U{200A}') || c == '\U{2028}' || c == '\U{2029}'
    || c == '\U{202F}' || c == '\U{205F}' || c == '\U{3000}'
  }

  /** The number of white-space characters s starts with. */
  function LeadingWhiteSpace(s: string): (n: nat)
    ensures n <= |s|
    ensures forall k :: 0 <= k < n ==> IsWhiteSpace(s[k])
    ensures n < |s| ==> !IsWhiteSpace(s[n])
  {
    if |s| > 0 && IsWhiteSpace(s[0]) then 1 + LeadingWhiteSpace(s[1..]) else 0
  }

  /** The number of white-space characters s ends with. */
  function TrailingWhiteSpace(s: string): (n: nat)
    ensures n <= |s|
    ensures forall k :: |s| - n <= k < |s| ==> IsWhiteSpace(s[k])
    ensures n < |s| ==> !IsWhiteSpace(s[|s| - 1 - n])
  {
    if |s| > 0 && IsWhiteSpace(s[|s| - 1]) then 1 + TrailingWhiteSpace(s[..|s| - 1]) else 0
  }

  /** s without its leading and trailing white space. */
  function Trim(s: string): (r: string)
    ensures |r| > 0 ==> !IsWhiteSpace(r[0]) && !IsWhiteSpace(r[|r| - 1])
    ensures exists i :: TrimmedAt(s, r, i)
  {
    var i := LeadingWhiteSpace(s);
    var t := s[i..];
    var r := t[..|t| - TrailingWhiteSpace(t)];
    assert r == s[i..i + |r|];
    assert forall k :: i + |r| <= k < |s| ==> s[k] == t[k - i];
    assert TrimmedAt(s, r, i);
    r
  }

  /** r is the run of s that starts at i, and everything of s outside it is white space. */
  predicate TrimmedAt(s: string, r: string, i: int)
  {
    0 <= i <= |s| - |r| && r == s[i..i + |r|]
    && (forall k :: 0 <= k < i ==> IsWhiteSpace(s[k]))
    && (forall k :: i + |r| <= k < |s| ==> IsWhiteSpace(s[k]))
  }

  // ---------------------------------------------------------------------------
  // String.ToLower() and String.Contains(string)

  function ToLowerChar(c: char): char
  {
    if 'A' <= c <= 'Z' then (c as int + 32) as char else c
  }

  /** Lower-casing of the ASCII letters; every other character is kept. */
  function ToLower(s: string): (r: string)
    ensures |r| == |s|
  {
    seq(|s|, k requires 0 <= k < |s| => ToLowerChar(s[k]))
  }

  /** q occurs in s as a contiguous run of characters (ordinal comparison). */
  predicate Contains(s: string, q: string)
  {
    exists i | 0 <= i <= |s| - |q| :: OccursAt(s, q, i)
  }

  predicate OccursAt(s: string, q: string, i: int)
  {
    0 <= i <= |s| - |q| && s[i..i + |q|] == q
  }
}
