/**
 * The `java.lang.String` operations the publishers use: `endsWith`,
 * ASCII case mapping, `replace(CharSequence, CharSequence)` and
 * `split(",")`, each with the properties the rest of the model relies on.
 */
module Text {

  /** `s.endsWith(suffix)`. */
  predicate EndsWith(s: string, suffix: string) {
    |suffix| <= |s| && s[|s| - |suffix|..] == suffix
  }

  /** A string ends with a suffix exactly when it is some prefix followed by that suffix. */
  lemma EndsWithIff(s: string, suffix: string)
    ensures EndsWith(s, suffix) <==> exists prefix: string :: s == prefix + suffix
  {
    if EndsWith(s, suffix) {
      assert s == s[..|s| - |suffix|] + suffix;
    }
    if prefix: string :| s == prefix + suffix {
      assert s[|s| - |suffix|..] == suffix;
    }
  }

  /** Lower-cases an ASCII letter and leaves every other character alone. */
  function LowerChar(c: char): char {
    if 'A' <= c <= 'Z' then (c as int + 32) as char else c
  }

  /** Upper-cases an ASCII letter and leaves every other character alone. */
  function UpperChar(c: char): char {
    if 'a' <= c <= 'z' then (c as int - 32) as char else c
  }

  /**
   * Upper-casing a console answer: "Y" and "N" come from either case and
   * from nothing else, and a lower-case letter is recovered by lower-casing.
   */
  lemma UpperAnswers(c: char)
    ensures UpperChar(c) == 'Y' <==> c == 'y' || c == 'Y'
    ensures UpperChar(c) == 'N' <==> c == 'n' || c == 'N'
    ensures 'a' <= c <= 'z' ==> 'A' <= UpperChar(c) <= 'Z' && LowerChar(UpperChar(c)) == c
  {
  }

  /** `s.toLowerCase()` restricted to ASCII letters. */
  function Lower(s: string): (r: string)
    ensures |r| == |s|
    ensures forall i :: 0 <= i < |s| ==> r[i] == LowerChar(s[i])
  {
    seq(|s|, i requires 0 <= i < |s| => LowerChar(s[i]))
  }

  /** Lower-casing twice is lower-casing once. */
  lemma LowerIdempotent(s: string)
    ensures Lower(Lower(s)) == Lower(s)
  {
  }

  /** `target` occurs in `s` starting at index `i`. */
  predicate OccursAt(s: string, target: string, i: nat) {
    i + |target| <= |s| && s[i..i + |target|] == target
  }

  /** `s.contains(target)`. */
  predicate Occurs(s: string, target: string) {
    exists i: nat :: i <= |s| && OccursAt(s, target, i)
  }

  /**
   * `s.replace(target, replacement)`: every occurrence of a non-empty
   * `target` is replaced, scanning left to right, and an occurrence that
   * overlaps one already replaced is not matched.
   */
  function Replace(s: string, target: string, replacement: string): string
    requires target != []
    decreases |s|
  {
    if |s| < |target| then s
    else if s[..|target|] == target then replacement + Replace(s[|target|..], target, replacement)
    else [s[0]] + Replace(s[1..], target, replacement)
  }

  /** An occurrence in `s[1..]` is an occurrence in `s`, one index further on. */
  lemma OccursInTail(s: string, target: string, i: nat)
    requires |s| > 0 && OccursAt(s[1..], target, i)
    ensures OccursAt(s, target, i + 1)
  {
    assert s[i + 1..i + 1 + |target|] == s[1..][i..i + |target|];
  }

  /** A string that does not contain the target comes back unchanged. */
  lemma {:induction false} ReplaceAbsent(s: string, target: string, replacement: string)
    requires target != [] && !Occurs(s, target)
    ensures Replace(s, target, replacement) == s
    decreases |s|
  {
    if |s| >= |target| {
      assert !OccursAt(s, target, 0);
      assert s[..|target|] != target;
      if Occurs(s[1..], target) {
        var i: nat :| OccursAt(s[1..], target, i);
        OccursInTail(s, target, i);
        assert false;
      }
      ReplaceAbsent(s[1..], target, replacement);
      assert [s[0]] + s[1..] == s;
    }
  }

  /** `replace` at the target's first occurrence: at index 0. */
  lemma ReplaceHere(s: string, target: string, replacement: string)
    requires target != [] && OccursAt(s, target, 0)
    ensures Replace(s, target, replacement) == replacement + Replace(s[|target|..], target, replacement)
  {
    assert s[..|target|] == target;
  }

  /** `replace` where the target does not start: the first character is kept. */
  lemma ReplacePast(s: string, target: string, replacement: string)
    requires target != [] && |target| <= |s| && !OccursAt(s, target, 0)
    ensures Replace(s, target, replacement) == [s[0]] + Replace(s[1..], target, replacement)
  {
  }

  /** No occurrence before index `i` of `s` means none before index `i - 1` of `s[1..]`. */
  lemma NoEarlierInTail(s: string, target: string, i: nat)
    requires 0 < i <= |s| && target != []
    requires forall j: nat :: j < i ==> !OccursAt(s, target, j)
    ensures forall j: nat :: j < i - 1 ==> !OccursAt(s[1..], target, j)
  {
    forall j: nat | j < i - 1
      ensures !OccursAt(s[1..], target, j)
    {
      if OccursAt(s[1..], target, j) {
        OccursInTail(s, target, j);
      }
    }
  }

  /** Regrouping `head + (before + middle + rest)` as `(head + before) + middle + rest`. */
  lemma Regroup(x: string, head: string, before: string, middle: string, rest: string, prefix: string)
    requires x == head + (before + middle + rest) && prefix == head + before
    ensures x == prefix + middle + rest
  {
  }

  /**
   * `replace` scans left to right: everything before the first occurrence
   * is kept, that occurrence becomes the replacement, and the scan resumes
   * after it, so an occurrence overlapping it is never matched. With
   * `ReplaceAbsent` this fixes the result for every string.
   */
  lemma {:induction false} ReplaceAtFirst(s: string, target: string, replacement: string, i: nat)
    requires target != [] && OccursAt(s, target, i)
    requires forall j: nat :: j < i ==> !OccursAt(s, target, j)
    ensures Replace(s, target, replacement) == s[..i] + replacement + Replace(s[i + |target|..], target, replacement)
    decreases i
  {
    var rest := Replace(s[i + |target|..], target, replacement);
    if i == 0 {
      ReplaceHere(s, target, replacement);
    } else {
      ReplacePast(s, target, replacement);
      NoEarlierInTail(s, target, i);
      assert OccursAt(s[1..], target, i - 1) by {
        assert s[1..][i - 1..i - 1 + |target|] == s[i..i + |target|];
      }
      ReplaceAtFirst(s[1..], target, replacement, i - 1);
      assert s[1..][i - 1 + |target|..] == s[i + |target|..];
      var before := s[1..][..i - 1];
      assert [s[0]] + before == s[..i];
      Regroup(Replace(s, target, replacement), [s[0]], before, replacement, rest, s[..i]);
    }
  }

  /** Both occurrences of a target on either side of a separator are replaced. */
  lemma ReplaceBothSides(target: string, sep: char, replacement: string)
    requires target != [] && sep != target[0]
    ensures Replace(target + [sep] + target, target, replacement) == replacement + [sep] + replacement
  {
    var s := target + [sep] + target;
    var second := [sep] + target;
    assert s[..|target|] == target && s[|target|..] == second;
    ReplaceAtFirst(s, target, replacement, 0);
    assert s[..0] == [];
    assert second[..1] == [sep] && second[1..1 + |target|] == target && second[1 + |target|..] == [];
    assert !OccursAt(second, target, 0) by {
      assert second[0] != target[0];
    }
    ReplaceAtFirst(second, target, replacement, 1);
    assert Replace(second, target, replacement) == [sep] + replacement + Replace([], target, replacement);
  }

  /** A string missing one of the target's characters does not contain the target. */
  lemma AbsentCharacter(s: string, target: string, k: nat)
    requires k < |target| && target[k] !in s
    ensures !Occurs(s, target)
  {
    forall i: nat | i <= |s| && i + |target| <= |s|
      ensures !OccursAt(s, target, i)
    {
      assert s[i..i + |target|][k] == s[i + k];
    }
  }

  /** Replacing a target by itself changes nothing: the scan never matches inside text it has just put in. */
  lemma {:induction false} ReplaceBySelf(s: string, target: string)
    requires target != []
    ensures Replace(s, target, target) == s
    decreases |s|
  {
    if |s| >= |target| {
      if s[..|target|] == target {
        ReplaceBySelf(s[|target|..], target);
        assert s[..|target|] + s[|target|..] == s;
      } else {
        ReplaceBySelf(s[1..], target);
        assert [s[0]] + s[1..] == s;
      }
    }
  }

  /**
   * Every piece of `s` between separators, empty pieces included, in order:
   * `SplitAll("a,,b", ',') == ["a", "", "b"]`.
   */
  function SplitAll(s: string, sep: char): (pieces: seq<string>)
    ensures |pieces| >= 1
    decreases |s|
  {
    if s == [] then [[]]
    else
      var rest := SplitAll(s[1..], sep);
      if s[0] == sep then [[]] + rest
      else [[s[0]] + rest[0]] + rest[1..]
  }

  /** The pieces glued back together with the separator between them. */
  function Join(pieces: seq<string>, sep: char): string
    requires |pieces| >= 1
    decreases |pieces|
  {
    if |pieces| == 1 then pieces[0] else pieces[0] + [sep] + Join(pieces[1..], sep)
  }

  /** No piece of a split contains the separator. */
  predicate SeparatorFree(pieces: seq<string>, sep: char) {
    forall k :: 0 <= k < |pieces| ==> sep !in pieces[k]
  }

  /** Splitting and joining again gives back the string, and no piece holds a separator. */
  lemma {:induction false} JoinSplitAll(s: string, sep: char)
    ensures Join(SplitAll(s, sep), sep) == s
    ensures SeparatorFree(SplitAll(s, sep), sep)
    decreases |s|
  {
    if s != [] {
      var rest := SplitAll(s[1..], sep);
      JoinSplitAll(s[1..], sep);
      if s[0] == sep {
        assert SplitAll(s, sep)[1..] == rest;
        assert [s[0]] + s[1..] == s;
      } else {
        var pieces := SplitAll(s, sep);
        assert pieces[0] == [s[0]] + rest[0];
        assert pieces[1..] == rest[1..];
        if |rest| == 1 {
          assert Join(pieces, sep) == [s[0]] + rest[0];
        } else {
          assert Join(pieces, sep) == [s[0]] + rest[0] + [sep] + Join(rest[1..], sep);
        }
        assert [s[0]] + s[1..] == s;
        forall k | 0 <= k < |pieces| ensures sep !in pieces[k] {
          if k > 0 {
            assert pieces[k] == rest[k];
          }
        }
      }
    }
  }

  /** Splitting a string that starts with the separator opens an empty first piece. */
  lemma SplitAllAfterSeparator(t: string, sep: char)
    ensures SplitAll([sep] + t, sep) == [[]] + SplitAll(t, sep)
  {
    assert ([sep] + t)[1..] == t;
  }

  /** Splitting a string that starts with another character puts it at the front of the first piece. */
  lemma SplitAllAfterChar(c: char, t: string, sep: char)
    requires c != sep
    ensures SplitAll([c] + t, sep) == [[c] + SplitAll(t, sep)[0]] + SplitAll(t, sep)[1..]
  {
    assert ([c] + t)[1..] == t;
  }

  /** Joining pieces whose first piece starts with `c` starts with `c`. */
  lemma JoinConsHead(c: char, head: string, rest: seq<string>, sep: char)
    ensures Join([[c] + head] + rest, sep) == [c] + Join([head] + rest, sep)
  {
    var pieces := [[c] + head] + rest;
    var shorter := [head] + rest;
    assert pieces[1..] == rest && shorter[1..] == rest;
  }

  /** Dropping the first character of the first piece keeps the pieces separator-free. */
  lemma SeparatorFreeShorter(pieces: seq<string>, sep: char)
    requires |pieces| >= 1 && pieces[0] != [] && SeparatorFree(pieces, sep)
    ensures SeparatorFree([pieces[0][1..]] + pieces[1..], sep)
    ensures pieces[0][0] != sep
  {
    var head := pieces[0];
    assert head[0] in head;
    assert forall c :: c in head[1..] ==> c in head;
    var shorter := [head[1..]] + pieces[1..];
    forall k | 0 <= k < |shorter| ensures sep !in shorter[k] {
      if k > 0 {
        assert shorter[k] == pieces[k];
      }
    }
  }

  /** Joining separator-free pieces and splitting again gives back the pieces. */
  lemma {:induction false} SplitAllJoin(pieces: seq<string>, sep: char)
    requires |pieces| >= 1 && SeparatorFree(pieces, sep)
    ensures SplitAll(Join(pieces, sep), sep) == pieces
    decreases |pieces|, |pieces[0]|
  {
    if |pieces| == 1 {
      SplitAllSeparatorFree(pieces[0], sep);
    } else if pieces[0] == [] {
      var rest := pieces[1..];
      assert SeparatorFree(rest, sep) by {
        forall k | 0 <= k < |rest| ensures sep !in rest[k] {
          assert rest[k] == pieces[k + 1];
        }
      }
      assert Join(pieces, sep) == [sep] + Join(rest, sep);
      SplitAllJoin(rest, sep);
      SplitAllAfterSeparator(Join(rest, sep), sep);
      assert [[]] + rest == pieces;
    } else {
      var head := pieces[0];
      var rest := pieces[1..];
      var shorter := [head[1..]] + rest;
      SeparatorFreeShorter(pieces, sep);
      SplitAllJoin(shorter, sep);
      assert [head[0]] + head[1..] == head;
      assert [head] + rest == pieces;
      JoinConsHead(head[0], head[1..], rest, sep);
      SplitAllAfterChar(head[0], Join(shorter, sep), sep);
      assert shorter[1..] == rest;
    }
  }

  /** A join ends with its last piece. */
  lemma {:induction false} JoinEndsWithLastPiece(pieces: seq<string>, sep: char)
    requires |pieces| >= 1
    ensures EndsWith(Join(pieces, sep), pieces[|pieces| - 1])
    decreases |pieces|
  {
    if |pieces| > 1 {
      JoinEndsWithLastPiece(pieces[1..], sep);
      var rest := Join(pieces[1..], sep);
      assert Join(pieces, sep) == (pieces[0] + [sep]) + rest;
    }
  }

  /** A string without the separator splits into itself. */
  lemma {:induction false} SplitAllSeparatorFree(s: string, sep: char)
    requires sep !in s
    ensures SplitAll(s, sep) == [s]
    decreases |s|
  {
    if s != [] {
      assert s[0] in s;
      assert forall c :: c in s[1..] ==> c in s;
      SplitAllSeparatorFree(s[1..], sep);
      assert [s[0]] + s[1..] == s;
    }
  }

  /** Drops the empty pieces at the end, as `split` with limit 0 does. */
  function DropTrailingEmpty(pieces: seq<string>): (r: seq<string>)
    ensures |r| <= |pieces| && r == pieces[..|r|]
    ensures forall k :: |r| <= k < |pieces| ==> pieces[k] == []
    ensures r == [] || r[|r| - 1] != []
    decreases |pieces|
  {
    if pieces == [] then []
    else if pieces[|pieces| - 1] == [] then DropTrailingEmpty(pieces[..|pieces| - 1])
    else pieces
  }

  /**
   * `s.split(String.valueOf(sep))` for a separator that is not a regular
   * expression metacharacter: a string without the separator is the single
   * piece `[s]` (so `""` gives `[""]`); otherwise all pieces in order, less the
   * empty pieces at the end.
   */
  function JavaSplit(s: string, sep: char): seq<string> {
    if sep !in s then [s] else DropTrailingEmpty(SplitAll(s, sep))
  }

  /** The last piece of a split is empty exactly when the string ends with the separator (or is empty). */
  lemma {:induction false} LastPieceEmpty(s: string, sep: char)
    ensures var pieces := SplitAll(s, sep);
      (pieces[|pieces| - 1] == []) <==> (s == [] || s[|s| - 1] == sep)
    decreases |s|
  {
    if s != [] {
      var rest := SplitAll(s[1..], sep);
      LastPieceEmpty(s[1..], sep);
      if |rest| == 1 && s[0] != sep {
        assert SplitAll(s, sep) == [[s[0]] + rest[0]];
        assert rest[0] == [] <==> s[1..] == [];
        if s[1..] != [] {
          assert s[|s| - 1] == s[1..][|s[1..]| - 1];
        }
      } else if s[1..] != [] {
        assert s[|s| - 1] == s[1..][|s[1..]| - 1];
      }
    }
  }

  /**
   * For a non-empty string that does not end with the separator, Java's
   * split keeps every piece, so joining the pieces gives back the string.
   */
  lemma JavaSplitRoundTrip(s: string, sep: char)
    requires s != [] && s[|s| - 1] != sep
    ensures JavaSplit(s, sep) == SplitAll(s, sep)
    ensures Join(JavaSplit(s, sep), sep) == s
    ensures SeparatorFree(JavaSplit(s, sep), sep)
  {
    LastPieceEmpty(s, sep);
    JoinSplitAll(s, sep);
    if sep !in s {
      SplitAllSeparatorFree(s, sep);
    }
  }

  /** Every piece Java's split returns is a separator-free piece of the string, in order. */
  lemma JavaSplitPieces(s: string, sep: char)
    ensures var r := JavaSplit(s, sep);
      SeparatorFree(r, sep) && (sep !in s ==> r == [s]) && r == SplitAll(s, sep)[..|r|]
    ensures var r := JavaSplit(s, sep);
      forall k :: |r| <= k < |SplitAll(s, sep)| ==> SplitAll(s, sep)[k] == []
    ensures sep in s ==> var r := JavaSplit(s, sep); r == [] || r[|r| - 1] != []
  {
    JoinSplitAll(s, sep);
    if sep !in s {
      SplitAllSeparatorFree(s, sep);
    }
  }
}
