/**
 * The parts of Go's `strings` package and of its UTF-8 string representation
 * that the validator relies on. A Go string is modelled by the sequence of
 * Unicode code points that its (well-formed) UTF-8 bytes decode to.
 */
module Strings {

  /** Concatenation is associative (stated once, so that proofs need not rediscover it). */
  lemma Associative<T>(x: seq<T>, y: seq<T>, z: seq<T>)
    ensures (x + y) + z == x + (y + z)
  {
  }

  /** Number of occurrences of `c` in `s` (`strings.Count` with a one-character separator). */
  function Count(s: string, c: char): (n: nat)
    ensures n <= |s|
    ensures n == 0 <==> c !in s
  {
    if s == [] then 0
    else
      assert c in s <==> s[0] == c || c in s[1..];
      (if s[0] == c then 1 else 0) + Count(s[1..], c)
  }

  /** Total number of occurrences of `c` across all `pieces`. */
  function CountAll(pieces: seq<string>, c: char): nat
  {
    if pieces == [] then 0 else Count(pieces[0], c) + CountAll(pieces[1..], c)
  }

  /**
   * `strings.Split(s, sep)` for a one-character separator: the pieces between
   * consecutive separators, in order. The empty string splits into one empty piece.
   */
  function Split(s: string, sep: char): (parts: seq<string>)
    ensures |parts| == Count(s, sep) + 1
    ensures forall k :: 0 <= k < |parts| ==> sep !in parts[k]
  {
    if s == [] then [[]]
    else
      var rest := Split(s[1..], sep);
      if s[0] == sep then [[]] + rest
      else [[s[0]] + rest[0]] + rest[1..]
  }

  /** `strings.Join(parts, sep)` for a one-character separator. */
  function Join(parts: seq<string>, sep: char): string
  {
    if parts == [] then []
    else if |parts| == 1 then parts[0]
    else parts[0] + [sep] + Join(parts[1..], sep)
  }

  /** Joining the pieces of a split with the same separator gives back the string. */
  lemma {:induction false} SplitJoin(s: string, sep: char)
    ensures Join(Split(s, sep), sep) == s
  {
    if s != [] {
      var rest := Split(s[1..], sep);
      SplitJoin(s[1..], sep);
      if s[0] == sep {
        assert Split(s, sep) == [[]] + rest;
        assert ([[]] + rest)[1..] == rest;
      } else {
        var parts := Split(s, sep);
        assert parts == [[s[0]] + rest[0]] + rest[1..];
        if |rest| == 1 {
          assert parts == [[s[0]] + rest[0]];
        } else {
          assert parts[1..] == rest[1..];
        }
      }
    }
  }

  /** A character absent from `s` is absent from every piece of its split. */
  lemma {:induction false} SplitWithin(s: string, sep: char, d: char)
    requires d !in s
    ensures forall k :: 0 <= k < |Split(s, sep)| ==> d !in Split(s, sep)[k]
  {
    if s != [] {
      assert s == [s[0]] + s[1..];
      SplitWithin(s[1..], sep, d);
      var rest := Split(s[1..], sep);
      var parts := Split(s, sep);
      if s[0] == sep {
        forall k | 1 <= k < |parts| ensures d !in parts[k] {
          assert parts[k] == rest[k - 1];
        }
      } else {
        assert parts[0] == [s[0]] + rest[0];
        forall k | 1 <= k < |parts| ensures d !in parts[k] {
          assert parts[k] == rest[k];
        }
      }
    }
  }

  /** A string without the separator is one piece. */
  lemma {:induction false} SplitWithoutSeparator(s: string, sep: char)
    requires sep !in s
    ensures Split(s, sep) == [s]
  {
    if s != [] {
      assert sep !in s[1..] by {
        forall x | x in s[1..] ensures x in s { }
      }
      SplitWithoutSeparator(s[1..], sep);
      assert [s[0]] + s[1..] == s;
    }
  }

  /** How `Split` unfolds on a string that starts with `c`. */
  lemma SplitCons(c: char, t: string, sep: char)
    ensures Split([c] + t, sep) ==
      if c == sep then [[]] + Split(t, sep) else [[c] + Split(t, sep)[0]] + Split(t, sep)[1..]
  {
    assert ([c] + t)[1..] == t;
  }

  /** The inductive step of `SplitAround`: putting one character in front of `a`. */
  lemma SplitAroundStep(c: char, a: string, b: string, sep: char)
    requires Split(a + [sep] + b, sep) == Split(a, sep) + Split(b, sep)
    ensures Split([c] + a + [sep] + b, sep) == Split([c] + a, sep) + Split(b, sep)
  {
    var t := a + [sep] + b;
    assert [c] + a + [sep] + b == [c] + t;
    PrependPiece(c, t, Split(a, sep), Split(b, sep), sep);
    SplitCons(c, a, sep);
  }

  /** Prepending `c` to a string whose pieces are `ra + sb`, with `ra` non-empty, only changes the first piece of `ra`. */
  lemma PrependPiece(c: char, t: string, ra: seq<string>, sb: seq<string>, sep: char)
    requires |ra| > 0 && Split(t, sep) == ra + sb
    ensures Split([c] + t, sep) ==
      (if c == sep then [[]] + ra else [[c] + ra[0]] + ra[1..]) + sb
  {
    SplitCons(c, t, sep);
    if c != sep {
      var rt := ra + sb;
      assert rt[0] == ra[0];
      assert rt[1..] == ra[1..] + sb;
    }
  }

  /** Splitting distributes over a separator: `a + sep + b` splits into the pieces of `a`, then those of `b`. */
  lemma {:induction false} SplitAround(a: string, b: string, sep: char)
    ensures Split(a + [sep] + b, sep) == Split(a, sep) + Split(b, sep)
  {
    if a == [] {
      assert a + [sep] + b == [sep] + b;
      SplitCons(sep, b, sep);
    } else {
      SplitAround(a[1..], b, sep);
      SplitAroundStep(a[0], a[1..], b, sep);
      assert [a[0]] + a[1..] == a;
    }
  }

  /** Splitting pieces joined by a separator they do not contain gives back the pieces. */
  lemma {:induction false} JoinSplit(parts: seq<string>, sep: char)
    requires |parts| > 0
    requires forall k :: 0 <= k < |parts| ==> sep !in parts[k]
    ensures Split(Join(parts, sep), sep) == parts
  {
    if |parts| == 1 {
      SplitWithoutSeparator(parts[0], sep);
    } else {
      JoinSplit(parts[1..], sep);
      SplitWithoutSeparator(parts[0], sep);
      SplitAround(parts[0], Join(parts[1..], sep), sep);
      assert [parts[0]] + parts[1..] == parts;
    }
  }

  /** Splitting on `sep` keeps every other character: the pieces hold all occurrences of `d`. */
  lemma {:induction false} CountAcrossSplit(s: string, sep: char, d: char)
    requires sep != d
    ensures CountAll(Split(s, sep), d) == Count(s, d)
  {
    if s != [] {
      CountAcrossSplit(s[1..], sep, d);
      var rest := Split(s[1..], sep);
      assert CountAll(rest, d) == Count(rest[0], d) + CountAll(rest[1..], d);
      if s[0] == sep {
        assert Split(s, sep) == [[]] + rest;
        assert ([[]] + rest)[1..] == rest;
      } else {
        var parts := Split(s, sep);
        assert parts[0] == [s[0]] + rest[0];
        assert parts[0][1..] == rest[0];
        assert parts[1..] == rest[1..];
      }
    }
  }

  /** Number of bytes in the UTF-8 encoding of the code point `c` (`utf8.RuneLen`). */
  function RuneLen(c: char): (n: nat)
    ensures 1 <= n <= 4
    ensures n == 1 <==> c as int < 0x80
  {
    if c as int < 0x80 then 1
    else if c as int < 0x800 then 2
    else if c as int < 0x1_0000 then 3
    else 4
  }

  /**
   * Go's `len(s)`: the number of bytes of the UTF-8 encoding, as opposed to
   * `len([]rune(s))`, which is the number of code points `|s|`.
   */
  function ByteLen(s: string): (n: nat)
    ensures |s| <= n <= 4 * |s|
    ensures n == |s| <==> forall k :: 0 <= k < |s| ==> s[k] as int < 0x80
  {
    if s == [] then 0
    else
      var n := RuneLen(s[0]) + ByteLen(s[1..]);
      assert forall k :: 1 <= k < |s| ==> s[k] == s[1..][k - 1];
      n
  }
}
