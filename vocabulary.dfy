/**
 * Custom-vocabulary encoding (create_transcribe_vocabulary): every comma-separated term of
 * every vocabulary row is rewritten, right to left, into a token the transcription service
 * accepts ("Route 53" becomes "Route-five-three"), and a token-to-term mapping is recorded
 * so that the transcript can later be decoded.
 */
module Vocabulary {
  import opened TextOps

  /** convertDigitToWord */
  const DIGIT_WORDS: seq<string> := ["zero", "one", "two", "three", "four", "five", "six", "seven", "eight", "nine"]

  /** str.isdigit(): non-empty and every character a digit. */
  predicate IsDigitText(s: string) {
    |s| > 0 && forall i :: 0 <= i < |s| ==> IsDigit(s[i])
  }

  /** str.isspace(): non-empty and every character whitespace. */
  predicate IsSpaceText(s: string) {
    |s| > 0 && forall i :: 0 <= i < |s| ==> IsSpace(s[i])
  }

  /** The characters the pattern [^(a-z)(A-Z)-] does not remove: letters, '-', '(' and ')'. */
  predicate IsTokenChar(c: char) {
    IsLower(c) || IsUpper(c) || c == '-' || c == '(' || c == ')'
  }

  /** A non-empty run of ASCII letters. */
  predicate IsLetters(w: string) {
    |w| > 0 && forall i :: 0 <= i < |w| ==> IsLower(w[i]) || IsUpper(w[i])
  }

  /** No dash anywhere but possibly at the front. */
  predicate DashOnlyInFront(s: string) {
    forall i :: 1 <= i < |s| ==> s[i] != '-'
  }

  /** Positions i and i + 1 of s both hold a dash. */
  predicate DashPair(s: string, i: nat)
    requires i + 1 < |s|
  {
    s[i] == '-' && s[i + 1] == '-'
  }

  predicate NoDoubleDash(s: string) {
    forall i: nat :: i + 1 < |s| ==> !DashPair(s, i)
  }

  /** What every token satisfies: only letters, dashes and parentheses, no "--", no trailing dash. */
  /** Position i of t holds a character a token may contain. */
  predicate TokenCharAt(t: string, i: nat)
    requires i < |t|
  {
    IsTokenChar(t[i])
  }

  predicate IsValidToken(t: string) {
    && (forall i: nat :: i < |t| ==> TokenCharAt(t, i))
    && NoDoubleDash(t)
    && (t == [] || t[|t| - 1] != '-')
  }

  /** What one character's replacement text looks like: a single character, or letters with
      possibly a dash in front. */
  predicate LetterShape(l: string) {
    |l| == 1 || (|l| >= 2 && l[0] == '-' && IsLetters(l[1..])) || IsLetters(l)
  }

  lemma DigitWordsAreLetters(d: int)
    requires 0 <= d < 10
    ensures IsLetters(DIGIT_WORDS[d])
  {
  }

  // ---------------------------------------------------------------------------
  // One character of the right-to-left loop
  // ---------------------------------------------------------------------------

  /** The replacement text chosen for origItem[k] before the trailing-dash rule and the filter. */
  function Letter(orig: string, k: nat): (l: string)
    requires k < |orig|
    ensures LetterShape(l)
  {
    var c := orig[k];
    var l1 := if k > 0 && IsUpper(c) && !IsSpace(orig[k - 1]) then ['-', c] else [c];
    var l2 :=
      if IsDigitText(l1) then
        assert IsDigit(l1[0]) && l1[0] == c;
        DigitWordsAreLetters(c as int - '0' as int);
        (if k > 0 then "-" else "") + DIGIT_WORDS[c as int - '0' as int]
      else l1;
    var l3 := if l2 == "." then "-dot" else l2;
    assert "-dot"[1..] == "dot";
    if IsSpaceText(l3) then "-" else l3
  }

  /** `while letter.endswith('-'): letter = letter[:-1]` */
  function StripTrailingDashes(s: string): (r: string)
    ensures |r| <= |s| && r == s[..|r|]
    ensures r == [] || r[|r| - 1] != '-'
    ensures forall i :: |r| <= i < |s| ==> s[i] == '-'
    decreases |s|
  {
    if s != [] && s[|s| - 1] == '-' then StripTrailingDashes(s[..|s| - 1]) else s
  }

  /** re.sub(r'[^(a-z)(A-Z)-]', '', s): keeps the letters, dashes and parentheses, in order. */
  function KeepTokenChars(s: string): (r: string)
    ensures |r| <= |s|
    ensures forall i :: 0 <= i < |r| ==> IsTokenChar(r[i])
    ensures (forall i :: 0 <= i < |s| ==> IsTokenChar(s[i])) ==> r == s
    ensures |s| == 1 ==> r == (if IsTokenChar(s[0]) then s else [])
    decreases |s|
  {
    if s == [] then []
    else
      var rest := KeepTokenChars(s[1..]);
      if IsTokenChar(s[0]) then [s[0]] + rest else rest
  }

  /** The text prepended to the token for one character: the trailing-dash rule applies when the
      token built so far is empty or starts with a dash, then the unsupported characters go. */
  function Piece(letter: string, item: string): string {
    KeepTokenChars(if item == [] || item[0] == '-' then StripTrailingDashes(letter) else letter)
  }

  /** What the trailing-dash rule and the filter make of a letter: a piece of token characters
      with a dash at most in front, which ends with a dash only when it is the single dash
      of a space in front of a token that does not start with one. */
  lemma PieceShape(letter: string, item: string)
    requires LetterShape(letter)
    ensures var p := Piece(letter, item);
      && (forall i :: 0 <= i < |p| ==> IsTokenChar(p[i]))
      && DashOnlyInFront(p)
      && (p != [] && p[|p| - 1] == '-' ==> p == "-" && item != [] && item[0] != '-')
  {
    if |letter| == 1 {
      PieceOfOneChar(letter, item);
    } else {
      assert forall i :: 1 <= i < |letter| ==> IsLower(letter[i]) || IsUpper(letter[i]) by {
        assert forall i :: 1 <= i < |letter| ==> letter[i] == letter[1..][i - 1];
      }
      PieceOfTokenLetter(letter, item);
    }
  }

  /** A one-character letter becomes at most one token character, and a dash survives only in
      front of a token that does not start with one. */
  lemma PieceOfOneChar(letter: string, item: string)
    requires |letter| == 1
    ensures var p := Piece(letter, item);
      && |p| <= 1
      && (forall i :: 0 <= i < |p| ==> IsTokenChar(p[i]))
      && (p == "-" ==> item != [] && item[0] != '-')
  {
    var stripping := item == [] || item[0] == '-';
    var l5 := if stripping then StripTrailingDashes(letter) else letter;
    var p := KeepTokenChars(l5);
    if p != [] && p[0] == '-' {
      assert l5 == "-";
    }
  }

  /** Prepending such a piece to a valid token gives a valid token. */
  lemma PrependPiece(p: string, item: string)
    requires forall i :: 0 <= i < |p| ==> IsTokenChar(p[i])
    requires DashOnlyInFront(p)
    requires p != [] && p[|p| - 1] == '-' ==> p == "-" && item != [] && item[0] != '-'
    requires IsValidToken(item)
    ensures IsValidToken(p + item)
  {
    var t := p + item;
    forall i: nat | i < |t| ensures TokenCharAt(t, i) {
      if i < |p| {
        assert t[i] == p[i];
      } else {
        assert t[i] == item[i - |p|] && TokenCharAt(item, i - |p|);
      }
    }
    forall i: nat | i + 1 < |t| ensures !DashPair(t, i) {
      NoDoubleDashAt(p, item, i);
    }
    if item != [] {
      assert t[|t| - 1] == item[|item| - 1];
    }
  }

  /** The pair at position i of p + item is not "--": inside p only its first character may be
      a dash, at the seam the piece's trailing dash meets a token that does not start with one,
      and inside item there is no "--". */
  lemma NoDoubleDashAt(p: string, item: string, i: nat)
    requires DashOnlyInFront(p)
    requires p != [] && p[|p| - 1] == '-' ==> p == "-" && item != [] && item[0] != '-'
    requires NoDoubleDash(item)
    requires i + 1 < |p + item|
    ensures !DashPair(p + item, i)
  {
    var t := p + item;
    if i + 1 < |p| {
      assert t[i + 1] == p[i + 1];
    } else if i + 1 == |p| {
      assert t[i] == p[|p| - 1] && t[i + 1] == item[0];
    } else {
      assert t[i] == item[i - |p|] && t[i + 1] == item[i - |p| + 1];
      assert !DashPair(item, i - |p|);
    }
  }

  /** One step of the loop keeps the token valid. */
  lemma PrependLetter(letter: string, item: string)
    requires LetterShape(letter)
    requires IsValidToken(item)
    ensures IsValidToken(Piece(letter, item) + item)
  {
    PieceShape(letter, item);
    PrependPiece(Piece(letter, item), item);
  }

  // ---------------------------------------------------------------------------
  // The whole term
  // ---------------------------------------------------------------------------

  /** The token built from origItem[k..] by the right-to-left loop. Every such token only
      holds letters, dashes and parentheses, never holds "--" and never ends with a dash (it
      may start with one). */
  function EncodeFrom(orig: string, k: nat): (t: string)
    requires k <= |orig|
    ensures IsValidToken(t)
    decreases |orig| - k
  {
    if k == |orig| then []
    else
      var item := EncodeFrom(orig, k + 1);
      PrependLetter(Letter(orig, k), item);
      Piece(Letter(orig, k), item) + item
  }

  /** The token for one (already stripped) vocabulary term. */
  function Encode(orig: string): (t: string)
    ensures IsValidToken(t)
  {
    EncodeFrom(orig, 0)
  }

  /** The right-to-left loop over one term, as the source runs it. */
  method EncodeTerm(origItem: string) returns (item: string)
    ensures item == Encode(origItem)
    ensures IsValidToken(item)
  {
    item := "";
    for k := |origItem| downto 0
      invariant item == EncodeFrom(origItem, k)
    {
      var letter := ChooseLetter(origItem, k);
      if item == "" || item[0] == '-' {
        letter := DropTrailingDashes(letter);
      }
      letter := KeepTokenChars(letter);
      item := letter + item;
    }
  }

  /** The first part of the loop body: the replacement text for origItem[k]. */
  method ChooseLetter(origItem: string, k: nat) returns (letter: string)
    requires k < |origItem|
    ensures letter == Letter(origItem, k)
  {
    letter := [origItem[k]];
    if k > 0 && IsUpper(origItem[k]) && !IsSpace(origItem[k - 1]) {
      letter := "-" + letter;
    }
    if IsDigitText(letter) {
      assert IsDigit(letter[0]) && letter[0] == origItem[k];
      letter := DIGIT_WORDS[origItem[k] as int - '0' as int];
      if k > 0 {
        letter := "-" + letter;
      }
    }
    if letter == "." {
      letter := "-dot";
    }
    if IsSpaceText(letter) {
      letter := "-";
    }
  }

  /** `while letter.endswith('-'): letter = letter[:-1]` */
  method DropTrailingDashes(letter: string) returns (r: string)
    ensures r == StripTrailingDashes(letter)
  {
    r := letter;
    while r != [] && r[|r| - 1] == '-'
      invariant StripTrailingDashes(r) == StripTrailingDashes(letter)
      decreases |r|
    {
      r := r[..|r| - 1];
    }
  }

  /** A letter of token characters that does not end with a dash is prepended as it is. */
  lemma PieceOfTokenLetter(letter: string, item: string)
    requires letter != [] && letter[|letter| - 1] != '-'
    requires forall i :: 0 <= i < |letter| ==> IsTokenChar(letter[i])
    ensures Piece(letter, item) == letter
  {
  }

  /** A digit becomes its English word, dash-prefixed except at the start of the term. */
  lemma LetterOfDigit(orig: string, k: nat)
    requires k < |orig| && IsDigit(orig[k])
    ensures Letter(orig, k) == (if k > 0 then "-" else "") + DIGIT_WORDS[orig[k] as int - '0' as int]
  {
    var w := DIGIT_WORDS[orig[k] as int - '0' as int];
    DigitWordsAreLetters(orig[k] as int - '0' as int);
    assert IsDigitText([orig[k]]);
    var l2 := (if k > 0 then "-" else "") + w;
    assert l2[|l2| - 1] == w[|w| - 1];
    assert !IsSpaceText(l2);
  }

  /** A whitespace character becomes a single dash. */
  lemma LetterOfSpace(orig: string, k: nat)
    requires k < |orig| && IsSpace(orig[k])
    ensures Letter(orig, k) == "-"
  {
    assert [orig[k]][0] == orig[k];
    assert !IsDigitText([orig[k]]);
    assert IsSpaceText([orig[k]]);
  }

  /** An upper-case letter after the start and not after whitespace gets a dash in front. */
  lemma LetterOfInnerCapital(orig: string, k: nat)
    requires 0 < k < |orig| && IsUpper(orig[k]) && !IsSpace(orig[k - 1])
    ensures Letter(orig, k) == ['-', orig[k]]
  {
    assert ['-', orig[k]][0] == '-' && !IsDigit('-');
    assert !IsDigitText(['-', orig[k]]);
    assert ['-', orig[k]] != ".";
    assert !IsSpaceText(['-', orig[k]]);
  }

  /** A full stop is spelt out as "-dot". */
  lemma LetterOfDot(orig: string, k: nat)
    requires k < |orig| && orig[k] == '.'
    ensures Letter(orig, k) == "-dot"
  {
    assert [orig[k]] == "." && [orig[k]][0] == '.' && !IsDigit('.');
    assert !IsDigitText([orig[k]]);
    assert "-dot"[0] == '-' && !IsSpace('-');
    assert !IsSpaceText("-dot");
  }

  /** Any other character (a capital after whitespace, a comma, an apostrophe, ...) is kept as
      it is, and the filter later removes it unless it is a token character. */
  lemma LetterOfOther(orig: string, k: nat)
    requires k < |orig| && !IsDigit(orig[k]) && !IsSpace(orig[k]) && orig[k] != '.'
    requires !(k > 0 && IsUpper(orig[k]) && !IsSpace(orig[k - 1]))
    ensures Letter(orig, k) == [orig[k]]
    ensures !IsTokenChar(orig[k]) ==> KeepTokenChars(Letter(orig, k)) == []
  {
    assert [orig[k]][0] == orig[k];
    assert !IsDigitText([orig[k]]);
    assert !IsSpaceText([orig[k]]);
  }

  /** A lower-case letter, or an upper-case one at the start, is kept as it is. */
  lemma LetterOfLowerOrFirst(orig: string, k: nat)
    requires k < |orig| && (IsLower(orig[k]) || (k == 0 && IsUpper(orig[k])))
    ensures Letter(orig, k) == [orig[k]]
  {
    assert [orig[k]][0] == orig[k];
    assert !IsDigitText([orig[k]]);
    assert !IsSpaceText([orig[k]]);
  }

  const ROUTE_53: string := "Route 53"

  /** The steps of the "Route 53" example, stated for any eight-character term with the same
      last three characters. */
  lemma Route53Three(orig: string)
    requires |orig| == 8 && orig[7] == '3'
    ensures EncodeFrom(orig, 7) == "-three"
  {
    assert Letter(orig, 7) == "-three" by {
      LetterOfDigit(orig, 7);
      assert DIGIT_WORDS[3] == "three";
    }
    assert EncodeFrom(orig, 8) == "";
    assert Piece("-three", "") == "-three" by {
      PieceOfTokenLetter("-three", "");
    }
    assert EncodeFrom(orig, 7) == Piece(Letter(orig, 7), "") + "";
  }

  lemma Route53Five(orig: string)
    requires |orig| == 8 && orig[6] == '5'
    ensures Letter(orig, 6) == "-five"
  {
    LetterOfDigit(orig, 6);
    assert DIGIT_WORDS[5] == "five";
  }

  lemma Route53Digits(orig: string)
    requires |orig| == 8 && orig[6] == '5' && orig[7] == '3'
    ensures EncodeFrom(orig, 6) == "-five-three"
  {
    var rest := EncodeFrom(orig, 7);
    assert rest == "-three" by {
      Route53Three(orig);
    }
    assert Piece(Letter(orig, 6), rest) == "-five" by {
      Route53Five(orig);
      PieceOfTokenLetter("-five", "-three");
    }
    assert EncodeFrom(orig, 6) == "-five" + "-three";
    FiveThree();
  }

  lemma FiveThree()
    ensures "-five" + "-three" == "-five-three"
  {
  }

  lemma Route53Space(orig: string)
    requires |orig| == 8 && orig[5] == ' ' && orig[6] == '5' && orig[7] == '3'
    ensures EncodeFrom(orig, 5) == "-five-three"
  {
    var rest := EncodeFrom(orig, 6);
    assert rest == "-five-three" by {
      Route53Digits(orig);
    }
    assert Letter(orig, 5) == "-" by {
      LetterOfSpace(orig, 5);
    }
    assert Piece("-", rest) == [] by {
      assert rest[0] == '-';
      assert StripTrailingDashes("-") == [];
    }
    assert EncodeFrom(orig, 5) == Piece(Letter(orig, 5), rest) + rest;
  }

  lemma ConcatAssoc<T>(a: seq<T>, b: seq<T>, c: seq<T>)
    ensures a + (b + c) == (a + b) + c
  {
  }

  /** A run of lower-case letters (or a leading capital) is copied into the token as it is. */
  lemma {:induction false} PlainLettersKept(orig: string, lo: nat, hi: nat)
    requires lo <= hi <= |orig|
    requires forall j :: lo <= j < hi ==> IsLower(orig[j]) || (j == 0 && IsUpper(orig[j]))
    ensures EncodeFrom(orig, lo) == orig[lo..hi] + EncodeFrom(orig, hi)
    decreases hi - lo
  {
    if lo < hi {
      PlainLettersKept(orig, lo + 1, hi);
      PlainLetterKept(orig, lo);
      SliceFront(orig, lo, hi);
      ConcatAssoc([orig[lo]], orig[lo + 1..hi], EncodeFrom(orig, hi));
    }
  }

  /** One lower-case letter, or a leading capital, is prepended as it is. */
  lemma PlainLetterKept(orig: string, k: nat)
    requires k < |orig| && (IsLower(orig[k]) || (k == 0 && IsUpper(orig[k])))
    ensures EncodeFrom(orig, k) == [orig[k]] + EncodeFrom(orig, k + 1)
  {
    LetterOfLowerOrFirst(orig, k);
    PieceOfTokenLetter([orig[k]], EncodeFrom(orig, k + 1));
  }

  lemma SliceFront<T>(s: seq<T>, lo: nat, hi: nat)
    requires lo < hi <= |s|
    ensures s[lo..hi] == [s[lo]] + s[lo + 1..hi]
  {
  }

  /** "Route 53" becomes "Route-five-three": case is kept, digits become words, and the space
      becomes a dash that the trailing-dash rule drops because the token after it already
      starts with one. */
  lemma Route53Example()
    ensures Encode(ROUTE_53) == "Route-five-three"
  {
    assert |ROUTE_53| == 8 && ROUTE_53[5] == ' ' && ROUTE_53[6] == '5' && ROUTE_53[7] == '3';
    Route53Space(ROUTE_53);
    RouteIsPlain();
    PlainLettersKept(ROUTE_53, 0, 5);
    RouteFiveThree();
  }

  lemma RouteIsPlain()
    ensures forall j :: 0 <= j < 5 ==> IsLower(ROUTE_53[j]) || (j == 0 && IsUpper(ROUTE_53[j]))
    ensures ROUTE_53[0..5] == "Route"
  {
    forall j | 0 <= j < 5 ensures IsLower(ROUTE_53[j]) || (j == 0 && IsUpper(ROUTE_53[j])) {
      if j == 0 {} else if j == 1 {} else if j == 2 {} else if j == 3 {} else {}
    }
  }

  lemma RouteFiveThree()
    ensures "Route" + "-five-three" == "Route-five-three"
  {
  }

  // ---------------------------------------------------------------------------
  // The vocabulary: every piece of every row, in input order
  // ---------------------------------------------------------------------------

  /** row.split(","), each piece stripped of surrounding whitespace. */
  function RowPieces(row: string): (ps: seq<string>)
    ensures |ps| == |Split(row, ',')| && forall j :: 0 <= j < |ps| ==> ps[j] == Strip(Split(row, ',')[j])
  {
    var parts := Split(row, ',');
    seq(|parts|, j requires 0 <= j < |parts| => Strip(parts[j]))
  }

  /** The pieces of all rows, in the order the loops visit them. */
  function Pieces(rows: seq<string>): seq<string>
    decreases |rows|
  {
    if rows == [] then [] else Pieces(rows[..|rows| - 1]) + RowPieces(rows[|rows| - 1])
  }

  function Tokens(pieces: seq<string>): (ts: seq<string>)
    ensures |ts| == |pieces| && forall i :: 0 <= i < |pieces| ==> ts[i] == Encode(pieces[i])
  {
    seq(|pieces|, i requires 0 <= i < |pieces| => Encode(pieces[i]))
  }

  /** Storing values[i] under keys[i] for each i in turn. */
  function StoreAll(keys: seq<string>, values: seq<string>): map<string, string>
    requires |keys| == |values|
    decreases |keys|
  {
    if keys == [] then map[]
    else
      var n := |keys| - 1;
      StoreAll(keys[..n], values[..n])[keys[n] := values[n]]
  }

  /**
   * Storing in turn gives one key per distinct key stored, and each key holds the value of its
   * LAST store: a later store under the same key overwrites an earlier one.
   */
  lemma {:induction false} StoreAllLastWins(keys: seq<string>, values: seq<string>)
    requires |keys| == |values|
    ensures StoreAll(keys, values).Keys == set i | 0 <= i < |keys| :: keys[i]
    ensures forall t :: t in StoreAll(keys, values) ==>
      exists i :: LastStore(keys, values, t, i) && StoreAll(keys, values)[t] == values[i]
    decreases |keys|
  {
    if keys != [] {
      var n := |keys| - 1;
      var ks, vs := keys[..n], values[..n];
      StoreAllLastWins(ks, vs);
      var m := StoreAll(keys, values);
      assert forall i :: 0 <= i < n ==> ks[i] == keys[i];
      assert (set i | 0 <= i < |keys| :: keys[i]) == (set i | 0 <= i < n :: ks[i]) + {keys[n]};
      forall t | t in m ensures exists i :: LastStore(keys, values, t, i) && m[t] == values[i] {
        if t == keys[n] {
          assert LastStore(keys, values, t, n);
        } else {
          var i :| LastStore(ks, vs, t, i) && StoreAll(ks, vs)[t] == vs[i];
          assert LastStore(keys, values, t, i);
        }
      }
    }
  }

  /** Index i is the last one that stores under key t. */
  predicate LastStore(keys: seq<string>, values: seq<string>, t: string, i: int) {
    0 <= i < |keys| && keys[i] == t && forall j :: i < j < |keys| ==> keys[j] != t
  }

  /** `mapping[item] = origItem` for each piece in turn. */
  function MappingOf(pieces: seq<string>): map<string, string> {
    StoreAll(Tokens(pieces), pieces)
  }

  /** The token-to-term mapping has a key for every token and, for each, the last piece encoded to it. */
  lemma MappingHoldsLastOriginal(pieces: seq<string>)
    ensures MappingOf(pieces).Keys == set i | 0 <= i < |pieces| :: Encode(pieces[i])
    ensures forall t :: t in MappingOf(pieces) ==>
      exists i :: LastStore(Tokens(pieces), pieces, t, i) && MappingOf(pieces)[t] == pieces[i]
  {
    var ts := Tokens(pieces);
    StoreAllLastWins(ts, pieces);
    assert (set i | 0 <= i < |ts| :: ts[i]) == set i | 0 <= i < |pieces| :: Encode(pieces[i]);
  }

  lemma AppendPiece(before: seq<string>, o: string)
    ensures Tokens(before + [o]) == Tokens(before) + [Encode(o)]
    ensures MappingOf(before + [o]) == MappingOf(before)[Encode(o) := o]
  {
    assert (before + [o])[..|before|] == before;
    assert Tokens(before + [o])[..|before|] == Tokens(before);
  }

  lemma TakeOneMore<T>(done: seq<T>, s: seq<T>, j: nat)
    requires j < |s|
    ensures done + s[..j + 1] == (done + s[..j]) + [s[j]]
  {
    assert s[..j + 1] == s[..j] + [s[j]];
  }

  /** One piece more of a row adds its token to the terms and stores it in the mapping. */
  lemma RowStep(done: seq<string>, row: string, j: nat)
    requires j < |Split(row, ',')|
    ensures var o := Strip(Split(row, ',')[j]);
      && Tokens(done + RowPieces(row)[..j + 1]) == Tokens(done + RowPieces(row)[..j]) + [Encode(o)]
      && MappingOf(done + RowPieces(row)[..j + 1]) == MappingOf(done + RowPieces(row)[..j])[Encode(o) := o]
  {
    var pieces := RowPieces(row);
    TakeOneMore(done, pieces, j);
    AppendPiece(done + pieces[..j], pieces[j]);
  }

  lemma PiecesOfPrefix(rows: seq<string>, i: nat)
    requires i < |rows|
    ensures Pieces(rows[..i + 1]) == Pieces(rows[..i]) + RowPieces(rows[i])
  {
    assert rows[..i + 1][..i] == rows[..i];
  }

  lemma TokensAreMapped(pieces: seq<string>)
    ensures forall t :: t in Tokens(pieces) ==> t in MappingOf(pieces)
  {
    MappingHoldsLastOriginal(pieces);
    forall t | t in Tokens(pieces) ensures t in MappingOf(pieces) {
      var i :| 0 <= i < |pieces| && Tokens(pieces)[i] == t;
    }
  }

  /** The inner loop over the pieces of one row: each piece is stripped, encoded, stored in the
      mapping and appended to the terms. */
  /** After the first j parts of a row: the terms and the mapping hold what the pieces before the
      row and the row's first j pieces give. */
  predicate RowDone(done: seq<string>, row: string, j: nat, terms: seq<string>, mapping: map<string, string>) {
    && j <= |RowPieces(row)|
    && terms == Tokens(done + RowPieces(row)[..j])
    && mapping == MappingOf(done + RowPieces(row)[..j])
  }

  /** The inner loop over one row's comma-separated parts. */
  method AddRow(row: string, terms: seq<string>, mapping: map<string, string>, ghost done: seq<string>)
    returns (terms': seq<string>, mapping': map<string, string>)
    requires terms == Tokens(done) && mapping == MappingOf(done)
    ensures terms' == Tokens(done + RowPieces(row)) && mapping' == MappingOf(done + RowPieces(row))
  {
    terms', mapping' := terms, mapping;
    var items := Split(row, ',');
    assert done + RowPieces(row)[..0] == done;
    for j := 0 to |items|
      invariant RowDone(done, row, j, terms', mapping')
    {
      terms', mapping' := AddPart(items[j], terms', mapping', done, row, j);
    }
    assert RowPieces(row)[..|items|] == RowPieces(row);
  }

  /** The inner loop's body: strip part j of the row, encode it, record the token and map it
      back to the stripped text. */
  method AddPart(part: string, terms: seq<string>, mapping: map<string, string>, ghost done: seq<string>, ghost row: string, ghost j: nat)
    returns (terms': seq<string>, mapping': map<string, string>)
    requires j < |Split(row, ',')| && part == Split(row, ',')[j]
    requires RowDone(done, row, j, terms, mapping)
    ensures RowDone(done, row, j + 1, terms', mapping')
  {
    var origItem := Strip(part);
    var item := EncodeTerm(origItem);
    RowStep(done, row, j);
    mapping' := mapping[item := origItem];
    terms' := terms + [item];
  }

  /**
   * The handler's loops: each row is split on ",", each piece stripped and encoded; the tokens
   * are collected in input order and the mapping keeps, per token, the last piece encoded to it.
   */
  method CreateVocabulary(customVocabulary: seq<string>) returns (vocabularyTerms: seq<string>, mapping: map<string, string>)
    ensures vocabularyTerms == Tokens(Pieces(customVocabulary))
    ensures mapping == MappingOf(Pieces(customVocabulary))
    ensures forall t :: t in vocabularyTerms ==> IsValidToken(t) && t in mapping
  {
    vocabularyTerms := [];
    mapping := map[];
    for i := 0 to |customVocabulary|
      invariant vocabularyTerms == Tokens(Pieces(customVocabulary[..i]))
      invariant mapping == MappingOf(Pieces(customVocabulary[..i]))
    {
      PiecesOfPrefix(customVocabulary, i);
      vocabularyTerms, mapping := AddRow(customVocabulary[i], vocabularyTerms, mapping, Pieces(customVocabulary[..i]));
    }
    assert customVocabulary[..|customVocabulary|] == customVocabulary;
    TokensAreMapped(Pieces(customVocabulary));
  }

}
