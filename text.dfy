/** String operations the bot relies on, written out over `seq<char>`:
    literal substring search (`str.find(p) != -1`), removal of every
    occurrence (`str.replace(p, '')`), splitting on one separator character
    (`str.split(c)`), joining (`c.join(parts)`) and dropping empty pieces
    (`[x for x in parts if x]`). */
module Text {

  /** `pat` occurs in `s` starting at index `i`. */
  ghost predicate OccursAt(s: string, pat: string, i: int) {
    0 <= i && i + |pat| <= |s| && s[i..i + |pat|] == pat
  }

  /** Literal substring search, scanning from the left. */
  predicate Contains(s: string, pat: string)
    decreases |s|
  {
    |pat| <= |s| && (s[..|pat|] == pat || (|s| > 0 && Contains(s[1..], pat)))
  }

  lemma {:induction false} ContainsIff(s: string, pat: string)
    ensures Contains(s, pat) <==> exists i :: OccursAt(s, pat, i)
    decreases |s|
  {
    if |pat| <= |s| && s[..|pat|] == pat {
      assert OccursAt(s, pat, 0);
    } else if |pat| <= |s| && |s| > 0 {
      ContainsIff(s[1..], pat);
      if Contains(s[1..], pat) {
        var i :| OccursAt(s[1..], pat, i);
        assert s[1..][i..i + |pat|] == s[i + 1..i + 1 + |pat|];
        assert OccursAt(s, pat, i + 1);
      }
      if i :| OccursAt(s, pat, i) {
        assert i != 0;
        assert s[1..][i - 1..i - 1 + |pat|] == s[i..i + |pat|];
        assert OccursAt(s[1..], pat, i - 1);
      }
    }
  }

  /** A pattern whose first character does not occur in `s` does not occur
      in `s`. */
  lemma {:induction false} AbsentFirstChar(s: string, pat: string)
    requires |pat| > 0 && pat[0] !in s
    ensures !Contains(s, pat)
    decreases |s|
  {
    if |pat| <= |s| {
      assert s[..|pat|][0] == s[0];
      if |s| > 0 {
        AbsentFirstChar(s[1..], pat);
      }
    }
  }

  /** Every occurrence of `pat` removed, scanning left to right without
      overlap; an empty `pat` leaves `s` as it is. */
  function RemoveAll(s: string, pat: string): string
    decreases |s|
  {
    if |pat| == 0 || |s| < |pat| then s
    else if s[..|pat|] == pat then RemoveAll(s[|pat|..], pat)
    else [s[0]] + RemoveAll(s[1..], pat)
  }

  /** The number of occurrences that `RemoveAll` takes out. */
  ghost function MatchCount(s: string, pat: string): nat
    decreases |s|
  {
    if |pat| == 0 || |s| < |pat| then 0
    else if s[..|pat|] == pat then 1 + MatchCount(s[|pat|..], pat)
    else MatchCount(s[1..], pat)
  }

  /** Removal shortens the text by exactly the removed occurrences. */
  lemma {:induction false} RemoveAllLength(s: string, pat: string)
    ensures |RemoveAll(s, pat)| == |s| - MatchCount(s, pat) * |pat|
    decreases |s|
  {
    if |pat| == 0 || |s| < |pat| {
    } else if s[..|pat|] == pat {
      RemoveAllLength(s[|pat|..], pat);
      Distribute(MatchCount(s[|pat|..], pat), |pat|);
    } else {
      RemoveAllLength(s[1..], pat);
    }
  }

  /** The one product law `RemoveAllLength` needs, proved apart: inside the
      induction the solver's search over products is much more expensive. */
  lemma Distribute(m: nat, p: nat)
    ensures (1 + m) * p == p + m * p
  {
  }

  /** Something is removed exactly when the pattern occurs. */
  lemma {:induction false} MatchCountPositive(s: string, pat: string)
    requires |pat| > 0
    ensures MatchCount(s, pat) > 0 <==> Contains(s, pat)
    decreases |s|
  {
    if |s| < |pat| {
    } else if s[..|pat|] == pat {
    } else {
      MatchCountPositive(s[1..], pat);
    }
  }

  /** Text without an occurrence comes back unchanged. */
  lemma {:induction false} RemoveAllAbsent(s: string, pat: string)
    requires !Contains(s, pat)
    ensures RemoveAll(s, pat) == s
    decreases |s|
  {
    if |pat| == 0 || |s| < |pat| {
    } else {
      assert s[..|pat|] != pat;
      RemoveAllAbsent(s[1..], pat);
      assert [s[0]] + s[1..] == s;
    }
  }

  /** Text with an occurrence of a non-empty pattern loses a positive
      multiple of the pattern's length. */
  lemma RemoveAllShrinks(s: string, pat: string)
    requires |pat| > 0 && Contains(s, pat)
    ensures exists k: nat :: k > 0 && |RemoveAll(s, pat)| == |s| - k * |pat|
  {
    RemoveAllLength(s, pat);
    MatchCountPositive(s, pat);
    var k := MatchCount(s, pat);
    assert k > 0 && |RemoveAll(s, pat)| == |s| - k * |pat|;
  }

  /** The pieces of `s` between occurrences of `sep`, empty pieces included:
      one more piece than there are separators. */
  function Split(s: string, sep: char): (parts: seq<string>)
    ensures |parts| > 0
    ensures forall i :: 0 <= i < |parts| ==> sep !in parts[i]
    decreases |s|
  {
    if |s| == 0 then [""]
    else
      var rest := Split(s[1..], sep);
      if s[0] == sep then [""] + rest
      else [[s[0]] + rest[0]] + rest[1..]
  }

  /** The text before the first `sep`, or all of it. */
  function Before(s: string, sep: char): string
    decreases |s|
  {
    if |s| == 0 || s[0] == sep then "" else [s[0]] + Before(s[1..], sep)
  }

  /** `Before` is the first piece of the split. */
  lemma {:induction false} BeforeIsFirstPiece(s: string, sep: char)
    ensures Before(s, sep) == Split(s, sep)[0]
    decreases |s|
  {
    if |s| > 0 && s[0] != sep {
      BeforeIsFirstPiece(s[1..], sep);
    }
  }

  /** Text without the separator is its own first piece. */
  lemma {:induction false} BeforeNoSeparator(s: string, sep: char)
    requires sep !in s
    ensures Before(s, sep) == s
    decreases |s|
  {
    if |s| > 0 {
      BeforeNoSeparator(s[1..], sep);
      assert [s[0]] + s[1..] == s;
    }
  }

  /** The pieces, with `sep` between each two neighbours. */
  function Join(parts: seq<string>, sep: char): string
    decreases |parts|
  {
    if |parts| == 0 then ""
    else if |parts| == 1 then parts[0]
    else parts[0] + [sep] + Join(parts[1..], sep)
  }

  /** Joining the pieces gives back the text that was split. */
  lemma {:induction false} JoinSplit(s: string, sep: char)
    ensures Join(Split(s, sep), sep) == s
    decreases |s|
  {
    if |s| > 0 {
      JoinSplit(s[1..], sep);
      var rest := Split(s[1..], sep);
      if s[0] == sep {
        assert Join([""] + rest, sep) == "" + [sep] + Join(rest, sep);
      } else {
        var parts := [[s[0]] + rest[0]] + rest[1..];
        if |rest| == 1 {
          assert Join(parts, sep) == [s[0]] + rest[0];
        } else {
          assert parts[1..] == rest[1..];
          assert Join(parts, sep) == [s[0]] + rest[0] + [sep] + Join(rest[1..], sep);
          assert Join(rest, sep) == rest[0] + [sep] + Join(rest[1..], sep);
        }
      }
    }
  }

  /** A prefix without separator extends the first piece of what follows. */
  lemma {:induction false} SplitPrefix(a: string, t: string, sep: char)
    requires sep !in a
    ensures Split(a + t, sep) == [a + Split(t, sep)[0]] + Split(t, sep)[1..]
    decreases |a|
  {
    if |a| > 0 {
      assert (a + t)[0] == a[0];
      assert (a + t)[1..] == a[1..] + t;
      SplitPrefix(a[1..], t, sep);
      assert [a[0]] + (a[1..] + Split(t, sep)[0]) == a + Split(t, sep)[0];
    } else {
      assert a + t == t;
      assert a + Split(t, sep)[0] == Split(t, sep)[0];
      assert [Split(t, sep)[0]] + Split(t, sep)[1..] == Split(t, sep);
    }
  }

  /** Text without the separator is a single piece. */
  lemma SplitNoSeparator(s: string, sep: char)
    requires sep !in s
    ensures Split(s, sep) == [s]
  {
    SplitPrefix(s, "", sep);
    assert s + "" == s;
  }

  /** Splitting a join of separator-free pieces gives back the pieces. */
  lemma {:induction false} SplitJoin(parts: seq<string>, sep: char)
    requires |parts| > 0
    requires forall i :: 0 <= i < |parts| ==> sep !in parts[i]
    ensures Split(Join(parts, sep), sep) == parts
    decreases |parts|
  {
    if |parts| == 1 {
      SplitNoSeparator(parts[0], sep);
    } else {
      var tail := Join(parts[1..], sep);
      SplitJoin(parts[1..], sep);
      SplitPrefix(parts[0], [sep] + tail, sep);
      assert ([sep] + tail)[1..] == tail;
      assert Split([sep] + tail, sep) == [""] + Split(tail, sep);
      assert parts[0] + [sep] + tail == parts[0] + ([sep] + tail);
      assert Join(parts, sep) == parts[0] + ([sep] + tail);
      assert Split([sep] + tail, sep)[0] == "";
      assert Split([sep] + tail, sep)[1..] == parts[1..];
      assert parts[0] + "" == parts[0];
      assert [parts[0]] + parts[1..] == parts;
    }
  }

  /** Joining a piece in front of a non-empty list adds one separator. */
  lemma JoinCons(x: string, rest: seq<string>, sep: char)
    requires |rest| > 0
    ensures Join([x] + rest, sep) == x + [sep] + Join(rest, sep)
  {
    assert ([x] + rest)[1..] == rest;
  }

  /** Joining two non-empty lists of pieces puts one separator between them. */
  lemma {:induction false} JoinAppend(a: seq<string>, b: seq<string>, sep: char)
    requires |a| > 0 && |b| > 0
    ensures Join(a + b, sep) == Join(a, sep) + [sep] + Join(b, sep)
    decreases |a|
  {
    if |a| == 1 {
      assert (a + b)[1..] == b;
    } else {
      assert (a + b)[1..] == a[1..] + b;
      JoinAppend(a[1..], b, sep);
    }
  }

  /** The pieces that are not empty, in order. */
  function NonEmpty(parts: seq<string>): (r: seq<string>)
    ensures forall i :: 0 <= i < |r| ==> r[i] != "" && r[i] in parts
    decreases |parts|
  {
    if |parts| == 0 then []
    else if parts[0] == "" then NonEmpty(parts[1..])
    else [parts[0]] + NonEmpty(parts[1..])
  }

  /** The filter works piece by piece: filtering two lists one after the
      other is filtering their concatenation. */
  lemma {:induction false} NonEmptyAppend(a: seq<string>, b: seq<string>)
    ensures NonEmpty(a + b) == NonEmpty(a) + NonEmpty(b)
    decreases |a|
  {
    if |a| > 0 {
      assert (a + b)[0] == a[0] && (a + b)[1..] == a[1..] + b;
      NonEmptyAppend(a[1..], b);
    } else {
      assert a + b == b;
    }
  }

  /** Some piece is kept exactly when some piece is non-empty; the first
      kept piece is the first non-empty one, and the others are what the
      filter keeps of the pieces after it. */
  lemma {:induction false} NonEmptyFirst(parts: seq<string>)
    ensures |NonEmpty(parts)| > 0 <==> exists j :: 0 <= j < |parts| && parts[j] != ""
    ensures |NonEmpty(parts)| > 0 ==>
      exists j ::
        0 <= j < |parts| && parts[j] == NonEmpty(parts)[0] &&
        (forall k :: 0 <= k < j ==> parts[k] == "") &&
        NonEmpty(parts)[1..] == NonEmpty(parts[j + 1..])
    decreases |parts|
  {
    if |parts| > 0 {
      var tail := parts[1..];
      NonEmptyFirst(tail);
      if parts[0] == "" {
        if j :| 0 <= j < |tail| && tail[j] != "" {
          assert parts[j + 1] != "";
        }
        if j :| 0 <= j < |parts| && parts[j] != "" {
          assert tail[j - 1] != "";
        }
        if |NonEmpty(parts)| > 0 {
          var j :| 0 <= j < |tail| && tail[j] == NonEmpty(tail)[0] &&
            (forall k :: 0 <= k < j ==> tail[k] == "") &&
            NonEmpty(tail)[1..] == NonEmpty(tail[j + 1..]);
          assert tail[j + 1..] == parts[j + 2..];
          forall k | 0 <= k < j + 1 ensures parts[k] == "" {
            if k > 0 { assert parts[k] == tail[k - 1]; }
          }
          assert parts[j + 1] == NonEmpty(parts)[0];
        }
      } else {
        assert NonEmpty(parts)[1..] == NonEmpty(parts[0 + 1..]);
      }
    }
  }

  /** The pieces glued together with nothing between them. */
  function Concat(parts: seq<string>): string
    decreases |parts|
  {
    if |parts| == 0 then "" else parts[0] + Concat(parts[1..])
  }

  /** `s` with every `c` taken out. */
  function Without(s: string, c: char): string
    decreases |s|
  {
    if |s| == 0 then ""
    else (if s[0] == c then "" else [s[0]]) + Without(s[1..], c)
  }

  /** Dropping empty pieces does not change their concatenation. */
  lemma {:induction false} ConcatNonEmpty(parts: seq<string>)
    ensures Concat(NonEmpty(parts)) == Concat(parts)
    decreases |parts|
  {
    if |parts| > 0 {
      ConcatNonEmpty(parts[1..]);
    }
  }

  /** The pieces of a split, glued together, are the text without separators. */
  lemma {:induction false} ConcatSplit(s: string, sep: char)
    ensures Concat(Split(s, sep)) == Without(s, sep)
    decreases |s|
  {
    if |s| > 0 {
      ConcatSplit(s[1..], sep);
      var rest := Split(s[1..], sep);
      if s[0] != sep {
        assert Concat(rest) == rest[0] + Concat(rest[1..]);
        assert ([[s[0]] + rest[0]] + rest[1..])[1..] == rest[1..];
      }
    }
  }

  /** `[x for x in s.split(sep) if x]`: no empty token, no token holding the
      separator, and nothing but the separators is lost. */
  lemma Tokenize(s: string, sep: char)
    ensures forall i :: 0 <= i < |NonEmpty(Split(s, sep))| ==>
      NonEmpty(Split(s, sep))[i] != "" && sep !in NonEmpty(Split(s, sep))[i]
    ensures Concat(NonEmpty(Split(s, sep))) == Without(s, sep)
  {
    var parts := Split(s, sep);
    forall i | 0 <= i < |NonEmpty(parts)|
      ensures sep !in NonEmpty(parts)[i]
    {
      var j :| 0 <= j < |parts| && parts[j] == NonEmpty(parts)[i];
    }
    ConcatNonEmpty(parts);
    ConcatSplit(s, sep);
  }
}
