/**
 * The Python string operations the transcript pipeline relies on, restricted to ASCII:
 * character classes, `strip`, `split(",")`, `split()`, `join`, `in`, `replace` and
 * `string.capwords`.
 */
module TextOps {

  // ---------------------------------------------------------------------------
  // Character classes (str.isspace / isupper / islower / isdigit on one ASCII character)
  // ---------------------------------------------------------------------------

  /** Python counts TAB..CR (9..13), the space and the separators 28..31 as whitespace. */
  predicate IsSpace(c: char) {
    c == ' ' || (9 <= c as int <= 13) || (28 <= c as int <= 31)
  }

  predicate IsUpper(c: char) { 'A' <= c <= 'Z' }

  predicate IsLower(c: char) { 'a' <= c <= 'z' }

  predicate IsDigit(c: char) { '0' <= c <= '9' }

  function ToUpper(c: char): (u: char)
    ensures IsLower(c) ==> IsUpper(u)
    ensures !IsLower(c) ==> u == c
    ensures IsSpace(u) <==> IsSpace(c)
  {
    if IsLower(c) then (c as int - 32) as char else c
  }

  function ToLower(c: char): (l: char)
    ensures IsUpper(c) ==> IsLower(l)
    ensures !IsUpper(c) ==> l == c
    ensures IsSpace(l) <==> IsSpace(c)
  {
    if IsUpper(c) then (c as int + 32) as char else c
  }

  /** str.isupper(): at least one cased character and no lower-case one. */
  predicate IsUpperText(s: string) {
    (exists i :: 0 <= i < |s| && IsUpper(s[i])) && (forall i :: 0 <= i < |s| ==> !IsLower(s[i]))
  }

  // ---------------------------------------------------------------------------
  // Concatenation and joining
  // ---------------------------------------------------------------------------

  /** ''.join(parts) */
  function Concat(parts: seq<string>): string
    decreases |parts|
  {
    if parts == [] then "" else Concat(parts[..|parts| - 1]) + parts[|parts| - 1]
  }

  lemma ConcatAppend(parts: seq<string>, x: string)
    ensures Concat(parts + [x]) == Concat(parts) + x
  {
    assert (parts + [x])[..|parts|] == parts;
  }

  /** sep.join(parts) */
  function Join(parts: seq<string>, sep: string): string
    decreases |parts|
  {
    if |parts| == 0 then ""
    else if |parts| == 1 then parts[0]
    else parts[0] + sep + Join(parts[1..], sep)
  }

  // ---------------------------------------------------------------------------
  // strip()
  // ---------------------------------------------------------------------------

  function StripLeft(s: string): (r: string)
    ensures |r| <= |s| && r == s[|s| - |r|..]
    ensures forall k :: 0 <= k < |s| - |r| ==> IsSpace(s[k])
    ensures r == [] || !IsSpace(r[0])
    decreases |s|
  {
    if s != [] && IsSpace(s[0]) then StripLeft(s[1..]) else s
  }

  function StripRight(s: string): (r: string)
    ensures |r| <= |s| && r == s[..|r|]
    ensures forall k :: |r| <= k < |s| ==> IsSpace(s[k])
    ensures r == [] || !IsSpace(r[|r| - 1])
    decreases |s|
  {
    if s != [] && IsSpace(s[|s| - 1]) then StripRight(s[..|s| - 1]) else s
  }

  /** `r` is the slice of `s` starting at `lo`, and everything around it is whitespace. */
  predicate SliceBetweenSpaces(s: string, r: string, lo: int) {
    && 0 <= lo && lo + |r| <= |s| && r == s[lo..lo + |r|]
    && (forall k :: 0 <= k < lo ==> IsSpace(s[k]))
    && (forall k :: lo + |r| <= k < |s| ==> IsSpace(s[k]))
  }

  /** s.strip(): the longest slice of `s` that neither starts nor ends with whitespace,
      obtained by removing only whitespace from both ends. */
  function Strip(s: string): (r: string)
    ensures r == [] || (!IsSpace(r[0]) && !IsSpace(r[|r| - 1]))
    ensures exists lo :: SliceBetweenSpaces(s, r, lo)
  {
    var l := StripLeft(s);
    var r := StripRight(l);
    StripsAreSlice(s, l, r);
    r
  }

  /** Trimming whitespace on the left, then on the right, leaves a slice between spaces. */
  lemma StripsAreSlice(s: string, l: string, r: string)
    requires |l| <= |s| && l == s[|s| - |l|..] && forall k :: 0 <= k < |s| - |l| ==> IsSpace(s[k])
    requires |r| <= |l| && r == l[..|r|] && forall k :: |r| <= k < |l| ==> IsSpace(l[k])
    ensures SliceBetweenSpaces(s, r, |s| - |l|)
  {
    var lo := |s| - |l|;
    SliceOfSlice(s, lo, |r|);
    forall k | lo + |r| <= k < |s| ensures IsSpace(s[k]) {
      assert s[k] == l[k - lo];
    }
  }

  lemma SliceOfSlice<T>(s: seq<T>, lo: nat, n: nat)
    requires lo + n <= |s|
    ensures s[lo..][..n] == s[lo..lo + n]
  {
  }

  // ---------------------------------------------------------------------------
  // split(sep) and its inverse join
  // ---------------------------------------------------------------------------

  /** s.split(sep) for a one-character separator: every piece, empty ones included. */
  function Split(s: string, sep: char): (parts: seq<string>)
    ensures |parts| >= 1
    ensures forall k :: 0 <= k < |parts| ==> sep !in parts[k]
    ensures Join(parts, [sep]) == s
    decreases |s|
  {
    if s == [] then [""]
    else
      var rest := Split(s[1..], sep);
      if s[0] == sep then
        assert ([""] + rest)[1..] == rest;
        [""] + rest
      else
        var parts := [[s[0]] + rest[0]] + rest[1..];
        assert parts[1..] == rest[1..];
        assert |rest| > 1 ==> Join(rest, [sep]) == rest[0] + [sep] + Join(rest[1..], [sep]);
        parts
  }

  lemma {:induction false} SplitPrefix(w: string, sep: char, tail: string)
    requires sep !in w
    ensures Split(w + [sep] + tail, sep) == [w] + Split(tail, sep)
    decreases |w|
  {
    if w == [] {
      assert (w + [sep] + tail)[1..] == tail;
    } else {
      assert (w + [sep] + tail)[1..] == w[1..] + [sep] + tail;
      SplitPrefix(w[1..], sep, tail);
      assert [w[0]] + w[1..] == w;
    }
  }

  lemma {:induction false} SplitWhole(w: string, sep: char)
    requires sep !in w
    ensures Split(w, sep) == [w]
    decreases |w|
  {
    if w != [] {
      SplitWhole(w[1..], sep);
      assert w[0] != sep;
      assert Split(w[1..], sep)[1..] == [];
      assert [w[0]] + w[1..] == w;
    }
  }

  /** Splitting undoes joining when no piece holds the separator. */
  lemma {:induction false} SplitOfJoin(parts: seq<string>, sep: char)
    requires |parts| >= 1
    requires forall k :: 0 <= k < |parts| ==> sep !in parts[k]
    ensures Split(Join(parts, [sep]), sep) == parts
    decreases |parts|
  {
    if |parts| == 1 {
      SplitWhole(parts[0], sep);
    } else {
      SplitOfJoin(parts[1..], sep);
      SplitPrefix(parts[0], sep, Join(parts[1..], [sep]));
      assert parts[0] + [sep] + Join(parts[1..], [sep]) == Join(parts, [sep]);
      assert [parts[0]] + parts[1..] == parts;
    }
  }

  // ---------------------------------------------------------------------------
  // `sub in s`
  // ---------------------------------------------------------------------------

  /** Python's `sub in s` for strings: `sub` occurs at some position of `s`. */
  predicate Contains(s: string, sub: string) {
    exists k | 0 <= k <= |s| - |sub| :: OccursAt(s, sub, k)
  }

  predicate OccursAt(s: string, sub: string, k: int) {
    0 <= k <= |s| - |sub| && s[k..k + |sub|] == sub
  }

  lemma ContainsItself(s: string)
    ensures Contains(s, s)
  {
    assert OccursAt(s, s, 0);
  }

  // ---------------------------------------------------------------------------
  // s.replace(key, val)
  // ---------------------------------------------------------------------------

  /** `val` before every character of `s` and once more at the end ("ab".replace("", "-") == "-a-b-"). */
  function Interleave(s: string, val: string): string
    decreases |s|
  {
    if s == [] then val else val + [s[0]] + Interleave(s[1..], val)
  }

  /** Left-to-right scan replacing non-overlapping occurrences of a non-empty key. */
  function ReplaceNonEmpty(s: string, key: string, val: string): string
    requires key != []
    decreases |s|
  {
    if |s| < |key| then s
    else if s[..|key|] == key then val + ReplaceNonEmpty(s[|key|..], key, val)
    else [s[0]] + ReplaceNonEmpty(s[1..], key, val)
  }

  /** s.replace(key, val): every occurrence is replaced, not just the first. */
  function Replace(s: string, key: string, val: string): string {
    if key == [] then Interleave(s, val) else ReplaceNonEmpty(s, key, val)
  }

  /** A string without the key passes through unchanged. */
  lemma {:induction false} ReplaceAbsent(s: string, key: string, val: string)
    requires key != [] && !Contains(s, key)
    ensures Replace(s, key, val) == s
    decreases |s|
  {
    if |s| >= |key| {
      assert s[0..0 + |key|] == s[..|key|];
      assert !OccursAt(s, key, 0);
      if Contains(s[1..], key) {
        var k :| OccursAt(s[1..], key, k);
        assert OccursAt(s[1..], key, k);
        assert 0 <= k <= |s| - 1 - |key|;
        assert s[k + 1..k + 1 + |key|] == s[1..][k..k + |key|];
        assert OccursAt(s, key, k + 1);
        assert false;
      }
      ReplaceAbsent(s[1..], key, val);
      assert [s[0]] + s[1..] == s;
    }
  }

  /** A string that is exactly the key becomes exactly the value. */
  lemma ReplaceWhole(key: string, val: string)
    requires key != []
    ensures Replace(key, key, val) == val
  {
    assert key[..|key|] == key;
    assert key[|key|..] == [];
    assert ReplaceNonEmpty([], key, val) == [];
    assert val + [] == val;
  }

  /** Replacement is local: text before an occurrence that cannot hold the key is kept. */
  lemma {:induction false} ReplaceInContext(pre: string, key: string, val: string, post: string)
    requires key != [] && !Contains(pre + key[..|key| - 1], key)
    ensures Replace(pre + key + post, key, val) == pre + val + Replace(post, key, val)
    decreases |pre|
  {
    var s := pre + key + post;
    if pre == [] {
      assert s[..|key|] == key;
      assert s[|key|..] == post;
    } else {
      NotAtStart(pre, key, post);
      assert s[1..] == pre[1..] + key + post;
      ShiftNoContains(pre, key);
      ReplaceInContext(pre[1..], key, val, post);
      assert [pre[0]] + (pre[1..] + val + Replace(post, key, val)) == pre + val + Replace(post, key, val);
    }
  }

  lemma NotAtStart(pre: string, key: string, post: string)
    requires key != [] && pre != [] && !Contains(pre + key[..|key| - 1], key)
    ensures (pre + key + post)[..|key|] != key
  {
    var p := pre + key[..|key| - 1];
    assert !OccursAt(p, key, 0);
    assert p[0..|key|] == (pre + key + post)[..|key|];
  }

  lemma ShiftNoContains(pre: string, key: string)
    requires key != [] && pre != [] && !Contains(pre + key[..|key| - 1], key)
    ensures !Contains(pre[1..] + key[..|key| - 1], key)
  {
    var p := pre + key[..|key| - 1];
    var q := pre[1..] + key[..|key| - 1];
    assert q == p[1..];
    forall k | 0 <= k <= |q| - |key| ensures !OccursAt(q, key, k) {
      assert !OccursAt(p, key, k + 1);
      assert q[k..k + |key|] == p[k + 1..k + 1 + |key|];
    }
  }

  // ---------------------------------------------------------------------------
  // split() on whitespace runs, str.capitalize, string.capwords
  // ---------------------------------------------------------------------------

  predicate IsWord(w: string) {
    w != [] && forall i :: 0 <= i < |w| ==> !IsSpace(w[i])
  }

  /** The leading run of non-whitespace characters. */
  function WordPrefix(s: string): (w: string)
    ensures |w| <= |s| && w == s[..|w|]
    ensures forall i :: 0 <= i < |w| ==> !IsSpace(w[i])
    ensures |w| == |s| || IsSpace(s[|w|])
    decreases |s|
  {
    if s == [] || IsSpace(s[0]) then [] else [s[0]] + WordPrefix(s[1..])
  }

  /** s.split(): the maximal runs of non-whitespace characters, in order. */
  function Words(s: string): (ws: seq<string>)
    ensures forall w :: w in ws ==> IsWord(w)
    decreases |s|
  {
    var t := StripLeft(s);
    if t == [] then []
    else
      var w := WordPrefix(t);
      assert t[0] == w[0];
      assert IsWord(w);
      var rest := t[|w|..];
      assert |rest| < |s|;
      [w] + Words(rest)
  }

  function Lowered(s: string): (r: string)
    ensures |r| == |s| && forall i :: 0 <= i < |s| ==> r[i] == ToLower(s[i])
  {
    seq(|s|, i requires 0 <= i < |s| => ToLower(s[i]))
  }

  /** str.capitalize(): first character upper case, the rest lower case. */
  function Capitalize(w: string): (r: string)
    ensures |r| == |w|
    ensures r != [] ==> !IsLower(r[0]) && forall i :: 1 <= i < |r| ==> !IsUpper(r[i])
    ensures w != [] ==> r[0] == ToUpper(w[0]) && forall i :: 1 <= i < |w| ==> r[i] == ToLower(w[i])
    ensures IsWord(w) ==> IsWord(r)
  {
    if w == [] then [] else [ToUpper(w[0])] + Lowered(w[1..])
  }

  function CapitalizeAll(ws: seq<string>): (r: seq<string>)
    ensures |r| == |ws| && forall k :: 0 <= k < |ws| ==> r[k] == Capitalize(ws[k])
  {
    seq(|ws|, k requires 0 <= k < |ws| => Capitalize(ws[k]))
  }

  /** string.capwords(s): the words of `s`, each capitalized, joined by single spaces. */
  function Capwords(s: string): string {
    Join(CapitalizeAll(Words(s)), " ")
  }

  lemma CapitalizeIdempotent(w: string)
    ensures Capitalize(Capitalize(w)) == Capitalize(w)
  {
  }

  lemma {:induction false} WordPrefixOfWord(w: string, tail: string)
    requires IsWord(w) && (tail == [] || IsSpace(tail[0]))
    ensures WordPrefix(w + tail) == w
    decreases |w|
  {
    if |w| == 1 {
      assert (w + tail)[1..] == tail;
    } else {
      assert (w + tail)[1..] == w[1..] + tail;
      WordPrefixOfWord(w[1..], tail);
      assert [w[0]] + w[1..] == w;
    }
  }

  lemma WordsSkipSpace(rest: string)
    ensures Words(" " + rest) == Words(rest)
  {
    assert (" " + rest)[1..] == rest;
    assert StripLeft(" " + rest) == StripLeft(rest);
  }

  lemma {:induction false} WordsOfJoin(ws: seq<string>)
    requires forall w :: w in ws ==> IsWord(w)
    ensures Words(Join(ws, " ")) == ws
    decreases |ws|
  {
    if |ws| == 0 {
      assert Join(ws, " ") == "";
    } else if |ws| == 1 {
      var w := ws[0];
      assert IsWord(w);
      WordThenRest(w, []);
      assert w + [] == w;
    } else if |ws| > 1 {
      var w := ws[0];
      assert IsWord(w);
      var rest := Join(ws[1..], " ");
      assert Join(ws, " ") == w + (" " + rest);
      WordThenRest(w, " " + rest);
      WordsSkipSpace(rest);
      WordsOfJoin(ws[1..]);
      HeadAndTail(ws);
    }
  }

  lemma HeadAndTail<T>(s: seq<T>)
    requires s != []
    ensures [s[0]] + s[1..] == s
  {
  }

  /** A word followed by nothing or by whitespace splits into that word and the words after it. */
  lemma WordThenRest(w: string, tail: string)
    requires IsWord(w) && (tail == [] || IsSpace(tail[0]))
    ensures Words(w + tail) == [w] + Words(tail)
  {
    var s := w + tail;
    assert s[0] == w[0];
    StripLeftOfNonSpace(s);
    WordPrefixOfWord(w, tail);
    assert s[|w|..] == tail;
  }

  lemma StripLeftOfNonSpace(s: string)
    requires s != [] && !IsSpace(s[0])
    ensures StripLeft(s) == s
  {
  }

  /** Applying capwords twice gives the same text as applying it once. */
  lemma CapwordsIdempotent(s: string)
    ensures Capwords(Capwords(s)) == Capwords(s)
  {
    var cs := CapitalizeAll(Words(s));
    assert forall w :: w in cs ==> IsWord(w);
    WordsOfJoin(cs);
    assert Words(Capwords(s)) == cs;
    forall k | 0 <= k < |cs| ensures Capitalize(cs[k]) == cs[k] {
      CapitalizeIdempotent(Words(s)[k]);
    }
    assert CapitalizeAll(cs) == cs;
    assert Capwords(Capwords(s)) == Join(CapitalizeAll(cs), " ");
  }
}
