/**
 * The .NET string and character operations the parser relies on:
 * `char.IsControl`, `string.Trim()` and `string.Split(string)`.
 * They are library calls in the source; here they are functions with their
 * documented behaviour stated as contracts and lemmas.
 */
module Text {

  /** `char.IsControl`: Unicode general category Cc, U+0000..U+001F and U+007F..U+009F. */
  predicate IsControl(c: char) {
    c as int <= 0x1F || (0x7F <= c as int && c as int <= 0x9F)
  }

  /** The characters of `s` that are not control characters, in their original order. */
  function StripControl(s: string): (r: string)
    ensures |r| <= |s|
    ensures forall i :: 0 <= i < |r| ==> !IsControl(r[i])
  {
    if s == [] then []
    else (if IsControl(s[0]) then [] else [s[0]]) + StripControl(s[1..])
  }

  /** `s` with its leading white space removed; `isWhiteSpace` stands for `char.IsWhiteSpace`. */
  function TrimStart(s: string, isWhiteSpace: char -> bool): (r: string)
    ensures |r| <= |s| && r == s[|s| - |r|..]
    ensures forall i :: 0 <= i < |s| - |r| ==> isWhiteSpace(s[i])
    ensures r != [] ==> !isWhiteSpace(r[0])
  {
    if s != [] && isWhiteSpace(s[0]) then TrimStart(s[1..], isWhiteSpace) else s
  }

  /** `s` with its trailing white space removed. */
  function TrimEnd(s: string, isWhiteSpace: char -> bool): (r: string)
    ensures |r| <= |s| && r == s[..|r|]
    ensures forall i :: |r| <= i < |s| ==> isWhiteSpace(s[i])
    ensures r != [] ==> !isWhiteSpace(r[|r| - 1])
  {
    if s != [] && isWhiteSpace(s[|s| - 1]) then TrimEnd(s[..|s| - 1], isWhiteSpace) else s
  }

  /** `string.Trim()`: white space removed at both ends. */
  function Trim(s: string, isWhiteSpace: char -> bool): string {
    TrimEnd(TrimStart(s, isWhiteSpace), isWhiteSpace)
  }

  /** True when `sep` occurs in `s` at position `i`. */
  predicate OccursAt(s: string, sep: string, i: int) {
    0 <= i && i + |sep| <= |s| && s[i..i + |sep|] == sep
  }

  /**
   * `string.Split(string separator)`: the pieces of `s` between the
   * occurrences of `sep`, found left to right without overlap, empty pieces
   * included. An empty separator does not split at all.
   */
  function Split(s: string, sep: string): (r: seq<string>)
    ensures |r| >= 1
    decreases |s|
  {
    if |sep| == 0 || |s| < |sep| then [s]
    else if s[..|sep|] == sep then [[]] + Split(s[|sep|..], sep)
    else
      var rest := Split(s[1..], sep);
      [[s[0]] + rest[0]] + rest[1..]
  }

  /** `string.Join(sep, pieces)`, the inverse of `Split`. */
  function Join(pieces: seq<string>, sep: string): string
    requires |pieces| >= 1
  {
    if |pieces| == 1 then pieces[0] else pieces[0] + sep + Join(pieces[1..], sep)
  }

  // ---------------------------------------------------------------------------
  // Laws of the control-character filter

  /** Filtering distributes over concatenation: the kept characters stay in their order. */
  lemma {:induction false} StripControlConcat(a: string, b: string)
    ensures StripControl(a + b) == StripControl(a) + StripControl(b)
  {
    if a == [] {
      assert a + b == b;
    } else {
      assert (a + b)[0] == a[0] && (a + b)[1..] == a[1..] + b;
      StripControlConcat(a[1..], b);
    }
  }

  /** Every control character disappears; every other character is kept as often as it occurs. */
  lemma {:induction false} StripControlCount(s: string, c: char)
    ensures multiset(StripControl(s))[c] == if IsControl(c) then 0 else multiset(s)[c]
  {
    if s != [] {
      StripControlCount(s[1..], c);
      assert s == [s[0]] + s[1..];
      assert multiset(s) == multiset([s[0]]) + multiset(s[1..]);
    }
  }

  /** Text without control characters passes the filter unchanged. */
  lemma {:induction false} StripControlClean(s: string)
    requires forall i :: 0 <= i < |s| ==> !IsControl(s[i])
    ensures StripControl(s) == s
  {
    if s != [] {
      StripControlClean(s[1..]);
      assert s == [s[0]] + s[1..];
    }
  }

  // ---------------------------------------------------------------------------
  // Laws of Trim

  /** `Trim(s) == ""` exactly when every character of `s` is white space (so also for `s == ""`). */
  lemma {:induction false} TrimEmptyIff(s: string, isWhiteSpace: char -> bool)
    ensures Trim(s, isWhiteSpace) == [] <==> forall i :: 0 <= i < |s| ==> isWhiteSpace(s[i])
  {
    var t := TrimStart(s, isWhiteSpace);
    var off := |s| - |t|;
    if forall i :: 0 <= i < |s| ==> isWhiteSpace(s[i]) {
      assert t == [];
    } else {
      var i :| 0 <= i < |s| && !isWhiteSpace(s[i]);
      assert off <= i;
      assert t[i - off] == s[i];
      var u := TrimEnd(t, isWhiteSpace);
      assert i - off < |u|;
    }
  }

  // ---------------------------------------------------------------------------
  // Laws of Split

  lemma {:induction false} JoinPrepend(c: char, pieces: seq<string>, sep: string)
    requires |pieces| >= 1
    ensures Join([[c] + pieces[0]] + pieces[1..], sep) == [c] + Join(pieces, sep)
  {
    var ps := [[c] + pieces[0]] + pieces[1..];
    if |pieces| > 1 {
      assert ps[1..] == pieces[1..];
      assert ([c] + pieces[0]) + sep + Join(pieces[1..], sep)
          == [c] + (pieces[0] + sep + Join(pieces[1..], sep));
    }
  }

  /** Joining the pieces of a split with the same separator gives back the text. */
  lemma {:induction false} SplitJoin(s: string, sep: string)
    ensures Join(Split(s, sep), sep) == s
    decreases |s|
  {
    if |sep| == 0 || |s| < |sep| {
    } else if s[..|sep|] == sep {
      var rest := Split(s[|sep|..], sep);
      SplitJoin(s[|sep|..], sep);
      assert ([[]] + rest)[1..] == rest;
      assert [] + sep + s[|sep|..] == s;
    } else {
      var rest := Split(s[1..], sep);
      SplitJoin(s[1..], sep);
      JoinPrepend(s[0], rest, sep);
      assert [s[0]] + s[1..] == s;
    }
  }

  lemma {:induction false} JoinStartsWith(pieces: seq<string>, sep: string)
    requires |pieces| >= 1
    ensures |pieces[0]| <= |Join(pieces, sep)| && Join(pieces, sep)[..|pieces[0]|] == pieces[0]
  {
    if |pieces| > 1 {
      var j := Join(pieces, sep);
      assert j == pieces[0] + (sep + Join(pieces[1..], sep));
    }
  }

  lemma OccursShift(c: char, q: string, sep: string, i: int)
    requires i > 0
    ensures OccursAt([c] + q, sep, i) == OccursAt(q, sep, i - 1)
  {
    if i + |sep| <= |[c] + q| {
      assert ([c] + q)[i..i + |sep|] == q[i - 1..i - 1 + |sep|];
    }
  }

  /** No piece of a split contains the separator: every occurrence was cut out. */
  lemma {:induction false} SplitPiecesFree(s: string, sep: string)
    requires |sep| > 0
    ensures forall k, i :: 0 <= k < |Split(s, sep)| ==> !OccursAt(Split(s, sep)[k], sep, i)
    decreases |s|
  {
    var r := Split(s, sep);
    if |s| < |sep| {
      assert r == [s];
    } else if s[..|sep|] == sep {
      SplitPiecesFree(s[|sep|..], sep);
      assert r == [[]] + Split(s[|sep|..], sep);
      forall k, i | 0 <= k < |r| ensures !OccursAt(r[k], sep, i) {
        if k > 0 {
          assert r[k] == Split(s[|sep|..], sep)[k - 1];
        }
      }
    } else {
      var rest := Split(s[1..], sep);
      SplitPiecesFree(s[1..], sep);
      SplitJoin(s[1..], sep);
      JoinStartsWith(rest, sep);
      var p := [s[0]] + rest[0];
      assert r == [p] + rest[1..];
      assert p == s[..|p|];
      forall k, i | 0 <= k < |r| ensures !OccursAt(r[k], sep, i) {
        if k > 0 {
          assert r[k] == rest[k];
        } else if i > 0 {
          OccursShift(s[0], rest[0], sep, i);
        }
      }
    }
  }

  /**
   * The split cuts at the leftmost occurrence of the separator: the first
   * piece is the text before it and the rest is the split of the text after it.
   * This fixes the pieces even for a separator that overlaps itself, such as `","`.
   */
  lemma {:induction false} SplitAtFirstOccurrence(s: string, sep: string, i: nat)
    requires |sep| > 0 && OccursAt(s, sep, i)
    requires forall j :: 0 <= j < i ==> !OccursAt(s, sep, j)
    ensures Split(s, sep) == [s[..i]] + Split(s[i + |sep|..], sep)
    decreases i
  {
    if i == 0 {
      assert s[..|sep|] == sep;
    } else {
      assert !OccursAt(s, sep, 0);
      var t := s[1..];
      assert s == [s[0]] + t;
      forall j | 0 <= j < i - 1 ensures !OccursAt(t, sep, j) {
        OccursShift(s[0], t, sep, j + 1);
      }
      OccursShift(s[0], t, sep, i);
      SplitAtFirstOccurrence(t, sep, i - 1);
      assert t[i - 1 + |sep|..] == s[i + |sep|..];
      assert [s[0]] + t[..i - 1] == s[..i];
    }
  }

  /** A text in which the separator never occurs is a single piece. */
  lemma {:induction false} SplitWithoutOccurrence(s: string, sep: string)
    requires |sep| > 0 && forall i :: !OccursAt(s, sep, i)
    ensures Split(s, sep) == [s]
    decreases |s|
  {
    if |s| >= |sep| {
      assert !OccursAt(s, sep, 0);
      var t := s[1..];
      assert s == [s[0]] + t;
      forall j ensures !OccursAt(t, sep, j) {
        if j >= 0 {
          OccursShift(s[0], t, sep, j + 1);
        }
      }
      SplitWithoutOccurrence(t, sep);
    }
  }

  /** No proper prefix of `sep` is also a suffix of it (true of "\n" and "\r\n"). */
  predicate NoBorder(sep: string) {
    forall k :: 0 < k < |sep| ==> sep[..k] != sep[|sep| - k..]
  }

  /** Without a border, `sep` cannot start inside a text shorter than itself and end in a copy of itself. */
  lemma NoEarlyMatch(s: string, sep: string)
    requires NoBorder(sep) && 0 < |s| < |sep|
    ensures (s + sep)[..|sep|] != sep
  {
    var k := |sep| - |s|;
    assert (s + sep)[..|sep|] == s + sep[..k];
    assert sep[..k] != sep[|sep| - k..];
    assert (s + sep[..k])[|s|..] == sep[..k];
  }

  /**
   * A separator at the very end of the text yields one more, empty, piece.
   * For a separator that overlaps itself ("aa") this fails, hence NoBorder.
   */
  lemma {:induction false} SplitTrailingSeparator(s: string, sep: string)
    requires |sep| > 0 && NoBorder(sep)
    ensures Split(s + sep, sep) == Split(s, sep) + [[]]
    decreases |s|
  {
    var t := s + sep;
    if 0 < |s| < |sep| {
      NoEarlyMatch(s, sep);
    }
    if t[..|sep|] == sep {
      if s == [] {
        assert t[|sep|..] == [];
      } else {
        assert s[..|sep|] == sep;
        assert t[|sep|..] == s[|sep|..] + sep;
        SplitTrailingSeparator(s[|sep|..], sep);
      }
    } else {
      assert s != [];
      assert t[1..] == s[1..] + sep;
      SplitTrailingSeparator(s[1..], sep);
      var rest := Split(t[1..], sep);
      if |s| < |sep| {
        assert Split(s[1..], sep) == [s[1..]];
        assert [s[0]] + s[1..] == s;
      } else {
        assert s[..|sep|] == t[..|sep|];
        var r := Split(s[1..], sep);
        assert rest == r + [[]];
        assert rest[0] == r[0] && rest[1..] == r[1..] + [[]];
      }
    }
  }

  /** A text in which the separator's first character never appears is a single piece. */
  lemma {:induction false} SplitWithoutSeparatorStart(a: string, sep: string)
    requires |sep| > 0 && sep[0] !in a
    ensures Split(a, sep) == [a]
    decreases |a|
  {
    if |a| >= |sep| {
      assert a[..|sep|][0] == a[0];
      SplitWithoutSeparatorStart(a[1..], sep);
      assert [a[0]] + a[1..] == a;
    }
  }

  /** A piece in which the separator's first character never appears is cut off at the separator that follows it. */
  lemma {:induction false} SplitCutsAfterPiece(a: string, sep: string, b: string)
    requires |sep| > 0 && sep[0] !in a
    ensures Split(a + sep + b, sep) == [a] + Split(b, sep)
    decreases |a|
  {
    var t := a + sep + b;
    if a == [] {
      assert t == sep + b && t[..|sep|] == sep && t[|sep|..] == b;
    } else {
      assert t[..|sep|][0] == a[0];
      assert t[1..] == a[1..] + sep + b;
      SplitCutsAfterPiece(a[1..], sep, b);
      assert [a[0]] + a[1..] == a;
    }
  }

  /** Splitting a join gives back the pieces when none contains the separator's first character. */
  lemma {:induction false} SplitOfJoin(pieces: seq<string>, sep: string)
    requires |sep| > 0 && |pieces| >= 1
    requires forall k :: 0 <= k < |pieces| ==> sep[0] !in pieces[k]
    ensures Split(Join(pieces, sep), sep) == pieces
  {
    if |pieces| == 1 {
      SplitWithoutSeparatorStart(pieces[0], sep);
    } else {
      SplitOfJoin(pieces[1..], sep);
      SplitCutsAfterPiece(pieces[0], sep, Join(pieces[1..], sep));
      assert [pieces[0]] + pieces[1..] == pieces;
    }
  }
}
