/** The text representation used for relevance comparisons
    (`normalizeText` and `tokenize` in lib/google-image-scraper.ts). */
module Normalize {
  import opened Text
  import opened Seqs

  /** `s.replace(/[…]+/g, ' ')`: every maximal run of characters matching
      `isRun` becomes a single space. Both patterns the program uses match
      the space character itself. */
  function ReplaceRuns(s: string, isRun: char -> bool): (r: string)
    requires isRun(' ')
    ensures |s| > 0 <==> |r| > 0
    ensures |r| > 0 ==> (r[0] == ' ' <==> isRun(s[0]))
    ensures forall i :: 0 <= i < |r| ==> r[i] == ' ' || (!isRun(r[i]) && r[i] in s)
    ensures forall i :: 0 <= i < |r| - 1 ==> !(r[i] == ' ' && r[i + 1] == ' ')
    decreases |s|
  {
    if |s| == 0 then ""
    else if isRun(s[0]) then
      (if |s| > 1 && isRun(s[1]) then ReplaceRuns(s[1..], isRun) else " " + ReplaceRuns(s[1..], isRun))
    else [s[0]] + ReplaceRuns(s[1..], isRun)
  }

  /** A string whose only run characters are isolated spaces is left as it is. */
  lemma {:induction false} ReplaceRunsIdentity(t: string, isRun: char -> bool)
    requires isRun(' ')
    requires forall i :: 0 <= i < |t| && isRun(t[i]) ==> t[i] == ' '
    requires forall i :: 0 <= i < |t| - 1 ==> !(t[i] == ' ' && t[i + 1] == ' ')
    ensures ReplaceRuns(t, isRun) == t
    decreases |t|
  {
    if |t| > 0 {
      ReplaceRunsIdentity(t[1..], isRun);
      if isRun(t[0]) && |t| > 1 {
        assert t[0] == ' ';
        assert t[1] != ' ';
      }
    }
  }

  /** Replacing separator runs removes nothing but separators: the characters
      outside runs come through unchanged and in order. */
  lemma {:induction false} ReplaceRunsKeepsOthers(s: string, isRun: char -> bool, keep: char -> bool)
    requires isRun(' ')
    requires forall c :: keep(c) ==> !isRun(c)
    ensures Filter(ReplaceRuns(s, isRun), keep) == Filter(s, keep)
    decreases |s|
  {
    if |s| > 0 {
      ReplaceRunsKeepsOthers(s[1..], isRun, keep);
      var rest := ReplaceRuns(s[1..], isRun);
      if isRun(s[0]) {
        if !(|s| > 1 && isRun(s[1])) {
          assert (" " + rest)[1..] == rest;
        }
      } else {
        assert ([s[0]] + rest)[1..] == rest;
      }
    }
  }

  /** The shape of a normalized string: lower-case letters and digits, words
      separated by single spaces, no space at either end. */
  ghost predicate Canonical(t: string) {
    && (forall i :: 0 <= i < |t| ==> IsLowerAlnum(t[i]) || t[i] == ' ')
    && (forall i :: 0 <= i < |t| - 1 ==> !(t[i] == ' ' && t[i + 1] == ' '))
    && (|t| > 0 ==> t[0] != ' ' && t[|t| - 1] != ' ')
  }

  /** `normalizeText(s)`: lower-case, turn every run of characters other than
      ASCII letters and digits into one space, collapse white-space runs, trim. */
  function NormalizeText(s: string): string
  {
    Trim(ReplaceRuns(ReplaceRuns(Lower(s), IsNotAlnum), IsSpace))
  }

  /** The first replacement already leaves single spaces between runs of
      lower-case letters and digits, so the white-space pass changes nothing. */
  lemma {:induction false} SeparatedShape(s: string)
    ensures var b := ReplaceRuns(Lower(s), IsNotAlnum);
      && (forall i :: 0 <= i < |b| ==> IsLowerAlnum(b[i]) || b[i] == ' ')
      && ReplaceRuns(b, IsSpace) == b
  {
    var a := Lower(s);
    var b := ReplaceRuns(a, IsNotAlnum);
    forall i | 0 <= i < |b|
      ensures IsLowerAlnum(b[i]) || b[i] == ' '
    {
      if b[i] != ' ' {
        assert b[i] in a;
        var k :| 0 <= k < |a| && a[k] == b[i];
        assert !IsUpper(a[k]);
      }
    }
    ReplaceRunsIdentity(b, IsSpace);
  }

  /** A contiguous piece of a string with single interior spaces, trimmed of
      spaces at both ends, is canonical. */
  lemma {:induction false} TrimmedSliceCanonical(b: string)
    requires forall i :: 0 <= i < |b| ==> IsLowerAlnum(b[i]) || b[i] == ' '
    requires forall i :: 0 <= i < |b| - 1 ==> !(b[i] == ' ' && b[i + 1] == ' ')
    ensures Canonical(Trim(b))
  {
    var t := TrimStart(b);
    var r := Trim(b);
    var off := |b| - |t|;
    TrimStartIsSuffix(b);
    TrimEndIsPrefix(t);
    assert forall i :: 0 <= i < |r| ==> r[i] == t[i] == b[off + i];
  }

  /** Every normalized string is canonical. */
  lemma {:induction false} NormalizeIsCanonical(s: string)
    ensures Canonical(NormalizeText(s))
  {
    SeparatedShape(s);
    TrimmedSliceCanonical(ReplaceRuns(Lower(s), IsNotAlnum));
  }

  /** A canonical string is its own normal form. */
  lemma {:induction false} NormalizeOfCanonical(t: string)
    requires Canonical(t)
    ensures NormalizeText(t) == t
  {
    LowerOfLower(t);
    ReplaceRunsIdentity(t, IsNotAlnum);
    ReplaceRunsIdentity(t, IsSpace);
    TrimOfTrimmed(t);
  }

  /** Normalizing twice is normalizing once. */
  lemma {:induction false} NormalizeIdempotent(s: string)
    ensures NormalizeText(NormalizeText(s)) == NormalizeText(s)
  {
    NormalizeIsCanonical(s);
    NormalizeOfCanonical(NormalizeText(s));
  }

  lemma {:induction false} FilterOfSpaces(w: string, keep: char -> bool)
    requires forall c :: keep(c) ==> !IsSpace(c)
    requires forall i :: 0 <= i < |w| ==> IsSpace(w[i])
    ensures Filter(w, keep) == []
    decreases |w|
  {
    if |w| > 0 {
      FilterOfSpaces(w[1..], keep);
    }
  }

  /** Removing white space from both ends of a string does not change what
      `keep` selects from it. */
  lemma {:induction false} FilterTrimmed(b: string, keep: char -> bool)
    requires forall c :: keep(c) ==> !IsSpace(c)
    ensures Filter(Trim(b), keep) == Filter(b, keep)
  {
    FilterTrimStart(b, keep);
    FilterTrimEnd(TrimStart(b), keep);
  }

  lemma {:induction false} FilterTrimStart(b: string, keep: char -> bool)
    requires forall c :: keep(c) ==> !IsSpace(c)
    ensures Filter(TrimStart(b), keep) == Filter(b, keep)
    decreases |b|
  {
    if |b| > 0 && IsSpace(b[0]) {
      FilterTrimStart(b[1..], keep);
    }
  }

  lemma {:induction false} FilterTrimEnd(b: string, keep: char -> bool)
    requires forall c :: keep(c) ==> !IsSpace(c)
    ensures Filter(TrimEnd(b), keep) == Filter(b, keep)
    decreases |b|
  {
    if |b| > 0 && IsSpace(b[|b| - 1]) {
      var init := b[..|b| - 1];
      FilterTrimEnd(init, keep);
      assert b == init + [b[|b| - 1]];
      FilterAppend(init, [b[|b| - 1]], keep);
      FilterOfSpaces([b[|b| - 1]], keep);
    }
  }

  /** Normalizing keeps exactly the letters and digits of the input, in order
      and lower-cased; everything else it emits is a space. */
  lemma {:induction false} NormalizeKeepsAlnum(s: string)
    ensures Filter(NormalizeText(s), IsAlnum) == Filter(Lower(s), IsAlnum)
  {
    var a := Lower(s);
    var b := ReplaceRuns(a, IsNotAlnum);
    SeparatedShape(s);
    FilterTrimmed(b, IsAlnum);
    ReplaceRunsKeepsOthers(a, IsNotAlnum, IsAlnum);
  }

  predicate NonEmpty(t: string) { |t| > 0 }

  /** A token: a non-empty run of lower-case letters and digits. */
  ghost predicate IsWord(w: string) {
    |w| > 0 && forall i :: 0 <= i < |w| ==> IsLowerAlnum(w[i])
  }

  /** `tokenize(s)`: the non-empty pieces of the normalized text split at spaces. */
  function Tokenize(s: string): seq<string>
  {
    Filter(Split(NormalizeText(s), ' '), NonEmpty)
  }

  /** `tokenize` lower-cases first, so the case of its input is irrelevant. */
  lemma TokenizeIgnoresCase(s: string)
    ensures Tokenize(Lower(s)) == Tokenize(s)
  {
    LowerIdempotent(s);
  }

  lemma {:induction false} CanonicalPieces(t: string)
    requires Canonical(t)
    ensures forall k :: 0 <= k < |Split(t, ' ')| ==> ' ' !in Split(t, ' ')[k]
    ensures |t| > 0 ==> forall k :: 0 <= k < |Split(t, ' ')| ==> IsWord(Split(t, ' ')[k])
  {
    if |t| > 0 {
      SplitPiecesNonEmpty(t, ' ');
      var ps := Split(t, ' ');
      JoinSplit(t, ' ');
      forall k | 0 <= k < |ps|
        ensures IsWord(ps[k])
      {
        PieceChars(ps, k, t);
      }
    }
  }

  /** Every character of a piece of a split is a character of the split string. */
  lemma {:induction false} PieceChars(ps: seq<string>, k: nat, t: string)
    requires k < |ps| && Join(ps, " ") == t
    requires forall k :: 0 <= k < |ps| ==> ' ' !in ps[k]
    requires forall i :: 0 <= i < |t| ==> IsLowerAlnum(t[i]) || t[i] == ' '
    ensures forall i :: 0 <= i < |ps[k]| ==> IsLowerAlnum(ps[k][i])
    decreases k
  {
    if |ps| > 1 {
      var tail := Join(ps[1..], " ");
      assert t == ps[0] + " " + tail;
      if k == 0 {
        assert forall i :: 0 <= i < |ps[0]| ==> ps[0][i] == t[i];
      } else {
        assert forall i :: 0 <= i < |tail| ==> tail[i] == t[|ps[0]| + 1 + i];
        PieceChars(ps[1..], k - 1, tail);
      }
    }
  }

  /** Tokens are non-empty runs of lower-case letters and digits. */
  lemma {:induction false} TokensAreWords(s: string)
    ensures forall k :: 0 <= k < |Tokenize(s)| ==> IsWord(Tokenize(s)[k])
  {
    var t := NormalizeText(s);
    NormalizeIsCanonical(s);
    CanonicalPieces(t);
    if |t| == 0 {
      assert Split(t, ' ') == [""];
      assert Tokenize(s) == [];
    }
  }

  /** Joining the tokens with single spaces gives back the normalized text. */
  lemma {:induction false} JoinTokenize(s: string)
    ensures Join(Tokenize(s), " ") == NormalizeText(s)
  {
    var t := NormalizeText(s);
    NormalizeIsCanonical(s);
    CanonicalPieces(t);
    if |t| == 0 {
      assert Split(t, ' ') == [""];
      assert Tokenize(s) == [];
    } else {
      JoinSplit(t, ' ');
    }
  }

  /** Words joined by single spaces tokenize back into the same words. */
  lemma {:induction false} TokenizeJoin(ws: seq<string>)
    requires forall k :: 0 <= k < |ws| ==> IsWord(ws[k])
    ensures Tokenize(Join(ws, " ")) == ws
  {
    var t := Join(ws, " ");
    if |ws| == 0 {
      assert NormalizeText("") == "";
      assert Split("", ' ') == [""];
    } else {
      JoinCanonical(ws);
      NormalizeOfCanonical(t);
      SplitJoin(ws, ' ');
    }
  }

  lemma {:induction false} JoinCanonical(ws: seq<string>)
    requires |ws| > 0
    requires forall k :: 0 <= k < |ws| ==> IsWord(ws[k])
    ensures Canonical(Join(ws, " "))
    decreases |ws|
  {
    if |ws| > 1 {
      JoinCanonical(ws[1..]);
      var tail := Join(ws[1..], " ");
      var t := ws[0] + " " + tail;
      assert Join(ws, " ") == t;
      assert |tail| > 0 && tail[0] != ' ';
      forall i | 0 <= i < |t| - 1
        ensures !(t[i] == ' ' && t[i + 1] == ' ')
      {
        if i >= |ws[0]| + 1 {
          assert t[i] == tail[i - |ws[0]| - 1];
          assert t[i + 1] == tail[i - |ws[0]|];
        }
      }
      forall i | 0 <= i < |t|
        ensures IsLowerAlnum(t[i]) || t[i] == ' '
      {
        if i > |ws[0]| {
          assert t[i] == tail[i - |ws[0]| - 1];
        }
      }
    }
  }
}
