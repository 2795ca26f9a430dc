/**
 * The parts of java.lang that the chat core leans on: a reference that may be
 * null, an expression that may throw, array indexing, and the String methods
 * split (with one literal separator character), trim, equalsIgnoreCase,
 * startsWith and substring.
 */
module JavaLang {

  /** A Java reference that may be null. */
  datatype Option<+T> = None | Some(value: T)

  /** The unchecked exceptions the chat core can raise. */
  datatype Exception = NullPointerException | ArrayIndexOutOfBoundsException

  /** The result of evaluating a Java expression: a value or a thrown exception. */
  datatype Outcome<+T> = Return(value: T) | Throw(exception: Exception)

  /** Java array access `a[i]`. */
  function At(a: seq<string>, i: int): (r: Outcome<string>)
    ensures r.Return? <==> 0 <= i < |a|
    ensures r.Return? ==> r.value == a[i]
    ensures r.Throw? ==> r.exception == ArrayIndexOutOfBoundsException
  {
    if 0 <= i < |a| then Return(a[i]) else Throw(ArrayIndexOutOfBoundsException)
  }

  // ---------------------------------------------------------------------------
  // Splitting at a separator character
  // ---------------------------------------------------------------------------

  /** Every character of `s` is `c` (true of the empty string). */
  predicate OnlyOf(s: string, c: char) {
    forall k :: 0 <= k < |s| ==> s[k] == c
  }

  /** The text of `s` before the first `c`, or all of `s` when there is none. */
  function BeforeFirst(s: string, c: char): (r: string)
    ensures c !in r
    ensures c !in s ==> r == s
  {
    if s == [] then []
    else if s[0] == c then []
    else [s[0]] + BeforeFirst(s[1..], c)
  }

  /** The text of `s` after the first `c`, or empty when there is none. */
  function AfterFirst(s: string, c: char): (r: string)
    ensures |r| < |s| || s == []
    ensures c !in s ==> r == []
    decreases |s|
  {
    if s == [] then []
    else if s[0] == c then s[1..]
    else AfterFirst(s[1..], c)
  }

  /** The first `c` cuts `s` into the text before it and the text after it. */
  lemma {:induction false} AroundFirst(s: string, c: char)
    requires c in s
    ensures s == BeforeFirst(s, c) + [c] + AfterFirst(s, c)
  {
    if s[0] != c {
      AroundFirst(s[1..], c);
      assert s == [s[0]] + s[1..];
    }
  }

  /**
   * The pieces of `s` between the occurrences of `sep`, empty ones included:
   * one piece more than there are separators.
   */
  function Pieces(s: string, sep: char): (r: seq<string>)
    ensures |r| >= 1
    ensures forall k :: 0 <= k < |r| ==> sep !in r[k]
  {
    if s == [] then [""]
    else
      var rest := Pieces(s[1..], sep);
      if s[0] == sep then [""] + rest else [[s[0]] + rest[0]] + rest[1..]
  }

  /** Glue pieces back together with `sep` between them. */
  function Join(ps: seq<string>, sep: char): string
    requires |ps| >= 1
  {
    if |ps| == 1 then ps[0] else ps[0] + [sep] + Join(ps[1..], sep)
  }

  /** Pieces and Join are inverse: no character of the input is lost or added. */
  lemma {:induction false} JoinPieces(s: string, sep: char)
    ensures Join(Pieces(s, sep), sep) == s
  {
    if s != [] {
      var rest := Pieces(s[1..], sep);
      JoinPieces(s[1..], sep);
      if s[0] == sep {
        assert Pieces(s, sep)[1..] == rest;
      } else {
        var ps := Pieces(s, sep);
        if |rest| == 1 {
          assert ps == [[s[0]] + rest[0]];
        } else {
          assert ps[1..] == rest[1..];
          assert Join(rest, sep) == rest[0] + [sep] + Join(rest[1..], sep);
        }
      }
    }
  }

  /** The first piece is the text before the first separator. */
  lemma {:induction false} PiecesHead(s: string, sep: char)
    ensures Pieces(s, sep)[0] == BeforeFirst(s, sep)
  {
    if s != [] && s[0] != sep {
      PiecesHead(s[1..], sep);
    }
  }

  /** Past the first separator, the pieces are those of the text after it. */
  lemma {:induction false} PiecesTail(s: string, sep: char)
    requires sep in s
    ensures Pieces(s, sep)[1..] == Pieces(AfterFirst(s, sep), sep)
  {
    if s[0] != sep {
      assert sep in s[1..] by {
        var k :| 0 <= k < |s| && s[k] == sep;
        assert s[1..][k - 1] == sep;
      }
      PiecesTail(s[1..], sep);
    }
  }

  /** A text without the separator is a single piece. */
  lemma {:induction false} PiecesWithoutSep(s: string, sep: char)
    requires sep !in s
    ensures Pieces(s, sep) == [s]
  {
    if s != [] {
      assert sep !in s[1..] by {
        forall k | 0 <= k < |s| - 1 ensures s[1..][k] != sep { assert s[1..][k] == s[k + 1]; }
      }
      PiecesWithoutSep(s[1..], sep);
      assert [s[0]] + s[1..] == s;
    }
  }

  /** A separator after a separator-free prefix ends the first piece. */
  lemma {:induction false} PiecesAt(a: string, sep: char, t: string)
    requires sep !in a
    ensures Pieces(a + [sep] + t, sep) == [a] + Pieces(t, sep)
    ensures BeforeFirst(a + [sep] + t, sep) == a
    ensures AfterFirst(a + [sep] + t, sep) == t
  {
    var s := a + [sep] + t;
    if a == [] {
      assert s[1..] == t;
    } else {
      assert s[1..] == a[1..] + [sep] + t;
      PiecesAt(a[1..], sep, t);
      assert [a[0]] + a[1..] == a;
    }
  }

  /** All pieces are empty exactly when the text is nothing but separators. */
  lemma {:induction false} PiecesAllEmpty(s: string, sep: char)
    ensures (forall k :: 0 <= k < |Pieces(s, sep)| ==> Pieces(s, sep)[k] == "") <==> OnlyOf(s, sep)
  {
    if s != [] {
      var ps, rest := Pieces(s, sep), Pieces(s[1..], sep);
      PiecesAllEmpty(s[1..], sep);
      if s[0] == sep {
        assert ps[1..] == rest;
        assert OnlyOf(s, sep) <==> OnlyOf(s[1..], sep) by {
          if OnlyOf(s[1..], sep) {
            forall k | 0 <= k < |s| ensures s[k] == sep {
              if k > 0 { assert s[k] == s[1..][k - 1]; }
            }
          }
        }
      } else {
        assert ps[0] != "";
        assert !OnlyOf(s, sep);
      }
    }
  }

  /** `ps` with its trailing empty strings removed. */
  function DropTrailingEmpty(ps: seq<string>): (r: seq<string>)
    ensures |r| <= |ps| && r == ps[..|r|]
    ensures forall k :: |r| <= k < |ps| ==> ps[k] == ""
    ensures |r| > 0 ==> r[|r| - 1] != ""
  {
    if ps == [] then []
    else if ps[|ps| - 1] == "" then DropTrailingEmpty(ps[..|ps| - 1])
    else ps
  }

  /**
   * Java `s.split(String.valueOf(sep))` for a separator that is not a regular
   * expression metacharacter: split at every separator, then drop trailing
   * empty strings; a string without the separator yields itself, even when empty.
   */
  function Split(s: string, sep: char): (r: seq<string>)
    ensures forall k :: 0 <= k < |r| ==> sep !in r[k]
    ensures sep in s && |r| > 0 ==> r[|r| - 1] != ""
  {
    if sep !in s then [s] else DropTrailingEmpty(Pieces(s, sep))
  }

  /** The first element of a split exists unless the text is a non-empty run of separators. */
  lemma SplitFirst(s: string, sep: char)
    ensures |Split(s, sep)| >= 1 <==> !(|s| > 0 && OnlyOf(s, sep))
    ensures |Split(s, sep)| >= 1 ==> Split(s, sep)[0] == BeforeFirst(s, sep)
  {
    PiecesAllEmpty(s, sep);
    PiecesHead(s, sep);
    var ps := Pieces(s, sep);
    if sep in s && !OnlyOf(s, sep) {
      var k :| 0 <= k < |ps| && ps[k] != "";
      assert |DropTrailingEmpty(ps)| > k;
    }
  }

  /**
   * The second element of a split exists exactly when there is a separator and
   * something other than separators after the first one; it is the text between
   * the first and the second separator.
   */
  lemma SplitSecond(s: string, sep: char)
    ensures |Split(s, sep)| >= 2 <==> sep in s && !OnlyOf(AfterFirst(s, sep), sep)
    ensures |Split(s, sep)| >= 2 ==> Split(s, sep)[1] == BeforeFirst(AfterFirst(s, sep), sep)
  {
    if sep in s {
      var ps, t := Pieces(s, sep), AfterFirst(s, sep);
      PiecesTail(s, sep);
      PiecesAllEmpty(t, sep);
      PiecesHead(t, sep);
      assert ps[1..] == Pieces(t, sep);
      if !OnlyOf(t, sep) {
        var k :| 0 <= k < |Pieces(t, sep)| && Pieces(t, sep)[k] != "";
        assert ps[k + 1] != "";
        assert |DropTrailingEmpty(ps)| > k + 1;
      } else {
        forall k | 1 <= k < |ps| ensures ps[k] == "" {
          assert ps[k] == Pieces(t, sep)[k - 1];
        }
      }
    }
  }

  // ---------------------------------------------------------------------------
  // Trimming, comparing, prefixes
  // ---------------------------------------------------------------------------

  /** String.trim treats every character up to U+0020 as white space. */
  predicate IsTrimmed(s: string) {
    |s| == 0 || (s[0] > ' ' && s[|s| - 1] > ' ')
  }

  function TrimStart(s: string): (r: string)
    ensures |r| <= |s| && r == s[|s| - |r|..]
    ensures |r| > 0 ==> r[0] > ' '
    ensures forall k :: 0 <= k < |s| - |r| ==> s[k] <= ' '
  {
    if |s| > 0 && s[0] <= ' ' then TrimStart(s[1..]) else s
  }

  function TrimEnd(s: string): (r: string)
    ensures |r| <= |s| && r == s[..|r|]
    ensures |r| > 0 ==> r[|r| - 1] > ' '
    ensures forall k :: |r| <= k < |s| ==> s[k] <= ' '
  {
    if |s| > 0 && s[|s| - 1] <= ' ' then TrimEnd(s[..|s| - 1]) else s
  }

  /** Java `s.trim()`: drop white space at both ends. */
  function Trim(s: string): (r: string)
    ensures IsTrimmed(r)
    ensures |r| <= |s|
    ensures IsTrimmed(s) ==> r == s
  {
    TrimEnd(TrimStart(s))
  }

  /**
   * What trim leaves is the infix of `s` between a prefix and a suffix made
   * only of white space; with IsTrimmed this fixes the result.
   */
  lemma {:induction false} TrimInfix(s: string) returns (i: int, j: int)
    ensures 0 <= i <= j <= |s| && Trim(s) == s[i..j]
    ensures forall k :: 0 <= k < i ==> s[k] <= ' '
    ensures forall k :: j <= k < |s| ==> s[k] <= ' '
  {
    var t := TrimStart(s);
    i := |s| - |t|;
    j := i + |TrimEnd(t)|;
    InfixOfSuffix(s, t, TrimEnd(t));
  }

  /** A prefix `r` of a suffix `t` of `s` is a slice of `s`, and what follows `r` in `t` follows it in `s`. */
  lemma InfixOfSuffix(s: string, t: string, r: string)
    requires |t| <= |s| && t == s[|s| - |t|..]
    requires |r| <= |t| && r == t[..|r|]
    requires forall k :: |r| <= k < |t| ==> t[k] <= ' '
    ensures r == s[|s| - |t|..|s| - |t| + |r|]
    ensures forall k :: |s| - |t| + |r| <= k < |s| ==> s[k] <= ' '
  {
    forall k | |s| - |t| + |r| <= k < |s| ensures s[k] <= ' ' {
      assert s[k] == t[k - (|s| - |t|)];
    }
  }

  /** Leading white space does not survive a trim. */
  lemma TrimLeadingSpace(c: char, s: string)
    requires c <= ' '
    ensures Trim([c] + s) == Trim(s)
  {
    assert ([c] + s)[1..] == s;
  }

  /** Character.toLowerCase restricted to the ASCII letters. */
  function ToLowerAscii(c: char): char {
    if 'A' <= c <= 'Z' then (c as int + 32) as char else c
  }

  /** Java `a.equalsIgnoreCase(b)`, folding ASCII letters. */
  predicate EqualsIgnoreCase(a: string, b: string)
    ensures a == b ==> EqualsIgnoreCase(a, b)
  {
    |a| == |b| && forall k :: 0 <= k < |a| ==> ToLowerAscii(a[k]) == ToLowerAscii(b[k])
  }

  /** Java `s.startsWith(p)`. */
  predicate StartsWith(s: string, p: string)
    ensures StartsWith(s, p) ==> |p| <= |s| && s == p + s[|p|..]
    ensures p == [] ==> StartsWith(s, p)
  {
    |p| <= |s| && s[..|p|] == p
  }
}
