/** Python's built-in string operations that the two scripts rely on, over
    strings of code points (Python's `len` and slicing count code points). */
module PyStrings {

  type String = seq<char>

  /** Python's `str.isspace()` for one code point: the characters that
      `strip()` removes and that `split()` with no argument splits on. */
  predicate IsSpace(c: char) {
    c == ' ' || ('\t' <= c <= '\r') || ('\U{1C}' <= c <= '\U{1F}')
    || c == '\U{85}' || c == '\U{A0}' || c == '\U{1680}'
    || ('\U{2000}' <= c <= '\U{200A}') || c == '\U{2028}' || c == '\U{2029}'
    || c == '\U{202F}' || c == '\U{205F}' || c == '\U{3000}'
  }

  predicate AllSpace(s: String) {
    forall i :: 0 <= i < |s| ==> IsSpace(s[i])
  }

  lemma AllSpaceAppend(a: String, b: String)
    ensures AllSpace(a + b) <==> AllSpace(a) && AllSpace(b)
  {
    if AllSpace(a + b) {
      assert forall i :: 0 <= i < |a| ==> a[i] == (a + b)[i];
      assert forall i :: 0 <= i < |b| ==> b[i] == (a + b)[|a| + i];
    }
    if AllSpace(a) && AllSpace(b) {
      forall i | 0 <= i < |a + b| ensures IsSpace((a + b)[i]) {
        if i >= |a| {
          assert (a + b)[i] == b[i - |a|];
        }
      }
    }
  }

  /** A string with no whitespace at either end (what `strip()` returns). */
  predicate IsStripped(s: String) {
    s != [] ==> !IsSpace(s[0]) && !IsSpace(s[|s| - 1])
  }

  // ---------------------------------------------------------------------
  // strip()

  /** Index of the first non-whitespace character at or after `from`
      (|s| when there is none). */
  function SkipSpaces(s: String, from: nat): (n: nat)
    requires from <= |s|
    ensures from <= n <= |s|
    ensures forall i :: from <= i < n ==> IsSpace(s[i])
    ensures n < |s| ==> !IsSpace(s[n])
    decreases |s| - from
  {
    if from < |s| && IsSpace(s[from]) then SkipSpaces(s, from + 1) else from
  }

  /** End of `s[lo..hi]` once its trailing whitespace is dropped. */
  function TrimEnd(s: String, lo: nat, hi: nat): (m: nat)
    requires lo <= hi <= |s|
    ensures lo <= m <= hi
    ensures forall i :: m <= i < hi ==> IsSpace(s[i])
    ensures m > lo ==> !IsSpace(s[m - 1])
    decreases hi
  {
    if hi > lo && IsSpace(s[hi - 1]) then TrimEnd(s, lo, hi - 1) else hi
  }

  /** Python's `s.strip()`: the empty string exactly for all-blank input,
      otherwise a string that neither starts nor ends with whitespace. */
  function Strip(s: String): (r: String)
    ensures IsStripped(r)
    ensures r == [] <==> AllSpace(s)
    ensures |r| <= |s|
  {
    var a := SkipSpaces(s, 0);
    var b := TrimEnd(s, a, |s|);
    assert a < |s| ==> a < b;
    s[a..b]
  }

  /** `strip()` removes outer whitespace and nothing else: the result is a
      slice of the input with only whitespace before and after it. */
  lemma StripSlice(s: String)
    ensures exists a, b :: 0 <= a <= b <= |s| && Strip(s) == s[a..b] && AllSpace(s[..a]) && AllSpace(s[b..])
  {
    var a := SkipSpaces(s, 0);
    var b := TrimEnd(s, a, |s|);
    assert Strip(s) == s[a..b];
    assert AllSpace(s[..a]) && AllSpace(s[b..]);
  }

  /** Stripping a string that has no outer whitespace changes nothing. */
  lemma {:induction false} StripStripped(s: String)
    requires IsStripped(s)
    ensures Strip(s) == s
  {
    assert s[0..|s|] == s;
  }

  /** `strip()` is idempotent. */
  lemma StripIdempotent(s: String)
    ensures Strip(Strip(s)) == Strip(s)
  {
    StripStripped(Strip(s));
  }

  /** `[line.strip() for line in lines if line.strip()]`: the stripped forms
      of the non-blank lines, in order. */
  function NonBlankStripped(lines: seq<String>): (r: seq<String>)
    ensures |r| <= |lines|
    ensures forall k :: 0 <= k < |r| ==> r[k] != [] && IsStripped(r[k])
  {
    if lines == [] then []
    else
      var l := Strip(lines[|lines| - 1]);
      NonBlankStripped(lines[..|lines| - 1]) + (if l != [] then [l] else [])
  }

  /** The filter works line by line: it distributes over concatenation, so
      the order of the input lines is kept. */
  lemma {:induction false} NonBlankStrippedAppend(a: seq<String>, b: seq<String>)
    ensures NonBlankStripped(a + b) == NonBlankStripped(a) + NonBlankStripped(b)
    decreases |b|
  {
    if b == [] {
      assert a + b == a;
    } else {
      var b' := b[..|b| - 1];
      assert (a + b)[..|a + b| - 1] == a + b';
      assert (a + b)[|a + b| - 1] == b[|b| - 1];
      NonBlankStrippedAppend(a, b');
    }
  }

  /** A non-empty sequence is its front followed by its last element. */
  lemma SnocSlice<T>(s: seq<T>)
    requires s != []
    ensures s[..|s| - 1] + [s[|s| - 1]] == s
  {
  }

  /** A non-empty sequence is its first element followed by the rest. */
  lemma ConsSlice<T>(s: seq<T>)
    requires s != []
    ensures [s[0]] + s[1..] == s
  {
  }

  /** A sequence is its prefix up to `n` followed by the rest. */
  lemma SplitAt<T>(s: seq<T>, n: nat)
    requires n <= |s|
    ensures s == s[..n] + s[n..]
  {
  }

  /** A prefix one element longer is the prefix followed by that element. */
  lemma TakeSnoc<T>(s: seq<T>, i: nat)
    requires i < |s|
    ensures s[..i + 1] == s[..i] + [s[i]]
  {
  }

  /** The filter keeps lines that are already non-empty and stripped as
      they are. */
  lemma {:induction false} NonBlankStrippedKeeps(lines: seq<String>)
    requires forall i :: 0 <= i < |lines| ==> lines[i] != [] && IsStripped(lines[i])
    ensures NonBlankStripped(lines) == lines
  {
    if lines != [] {
      var init := lines[..|lines| - 1];
      forall i | 0 <= i < |init| ensures init[i] != [] && IsStripped(init[i]) {
        assert init[i] == lines[i];
      }
      NonBlankStrippedKeeps(init);
      StripStripped(lines[|lines| - 1]);
      SnocSlice(lines);
    }
  }

  /** The positions of the lines the filter keeps. */
  function KeptIndices(lines: seq<String>): (idx: seq<nat>)
    ensures |idx| <= |lines|
    ensures forall k :: 0 <= k < |idx| ==> idx[k] < |lines|
  {
    if lines == [] then []
    else KeptIndices(lines[..|lines| - 1]) + (if Strip(lines[|lines| - 1]) != [] then [|lines| - 1] else [])
  }

  lemma {:induction false} KeptIndicesContents(lines: seq<String>)
    ensures |KeptIndices(lines)| == |NonBlankStripped(lines)|
    ensures forall k :: 0 <= k < |KeptIndices(lines)| ==>
      NonBlankStripped(lines)[k] == Strip(lines[KeptIndices(lines)[k]])
  {
    if lines != [] {
      var n := |lines| - 1;
      var init := lines[..n];
      KeptIndicesContents(init);
      var idx0, r0 := KeptIndices(init), NonBlankStripped(init);
      var idx, r := KeptIndices(lines), NonBlankStripped(lines);
      assert forall k :: 0 <= k < |idx0| ==> r[k] == r0[k] && idx[k] == idx0[k] && init[idx0[k]] == lines[idx0[k]];
    }
  }

  lemma {:induction false} KeptIndicesIncreasing(lines: seq<String>)
    ensures forall k, l :: 0 <= k < l < |KeptIndices(lines)| ==> KeptIndices(lines)[k] < KeptIndices(lines)[l]
  {
    if lines != [] {
      KeptIndicesIncreasing(lines[..|lines| - 1]);
    }
  }

  lemma {:induction false} KeptIndicesCover(lines: seq<String>)
    ensures forall i :: 0 <= i < |lines| && Strip(lines[i]) != [] ==> i in KeptIndices(lines)
  {
    if lines != [] {
      var init := lines[..|lines| - 1];
      KeptIndicesCover(init);
      assert forall i :: 0 <= i < |init| ==> init[i] == lines[i];
    }
  }

  /** The filter's result is the stripped input lines at strictly increasing
      positions, and every line it skips is blank. */
  lemma NonBlankStrippedIndices(lines: seq<String>)
    ensures |KeptIndices(lines)| == |NonBlankStripped(lines)|
    ensures forall k :: 0 <= k < |KeptIndices(lines)| ==>
      NonBlankStripped(lines)[k] == Strip(lines[KeptIndices(lines)[k]])
    ensures forall k, l :: 0 <= k < l < |KeptIndices(lines)| ==> KeptIndices(lines)[k] < KeptIndices(lines)[l]
    ensures forall i :: 0 <= i < |lines| && Strip(lines[i]) != [] ==> i in KeptIndices(lines)
  {
    KeptIndicesContents(lines);
    KeptIndicesIncreasing(lines);
    KeptIndicesCover(lines);
  }

  /** A line is kept exactly when it is not blank. */
  lemma NonBlankStrippedSingle(line: String)
    ensures NonBlankStripped([line]) == if AllSpace(line) then [] else [Strip(line)]
  {
    assert [line][..0] == [];
  }

  // ---------------------------------------------------------------------
  // split(sep) and sep.join(parts) for a one-character separator

  /** Python's `s.split(sep)`: never empty, and no piece holds `sep`. */
  function SplitOn(s: String, sep: char): (r: seq<String>)
    ensures |r| >= 1
    ensures forall k :: 0 <= k < |r| ==> sep !in r[k]
  {
    if s == [] then [[]]
    else
      var rest := SplitOn(s[1..], sep);
      if s[0] == sep then [[]] + rest else [[s[0]] + rest[0]] + rest[1..]
  }

  /** Python's `sep.join(parts)`. */
  function JoinWith(parts: seq<String>, sep: char): String
  {
    if parts == [] then []
    else if |parts| == 1 then parts[0]
    else parts[0] + [sep] + JoinWith(parts[1..], sep)
  }

  /** The join puts one separator between neighbours: a join of
      separator-free parts holds one separator fewer than it has parts. */
  lemma {:induction false} JoinCount(parts: seq<String>, sep: char)
    requires parts != []
    requires forall k :: 0 <= k < |parts| ==> sep !in parts[k]
    ensures Count(JoinWith(parts, sep), sep) == |parts| - 1
  {
    CountAbsent(parts[0], sep);
    if |parts| > 1 {
      var rest := JoinWith(parts[1..], sep);
      JoinCount(parts[1..], sep);
      CountAppend(parts[0] + [sep], rest, sep);
      CountAppend(parts[0], [sep], sep);
      assert Count([sep], sep) == 1;
    }
  }

  /** Joining adds only the separator. */
  lemma {:induction false} JoinKeepsOut(parts: seq<String>, sep: char, c: char)
    requires c != sep
    requires forall k :: 0 <= k < |parts| ==> c !in parts[k]
    ensures c !in JoinWith(parts, sep)
  {
    if |parts| > 1 {
      JoinKeepsOut(parts[1..], sep, c);
    }
  }

  /** A joined text is blank only if every part is. */
  lemma {:induction false} JoinVisible(parts: seq<String>, sep: char, k: nat)
    requires k < |parts| && !AllSpace(parts[k])
    ensures !AllSpace(JoinWith(parts, sep))
    decreases k
  {
    if |parts| > 1 {
      AllSpaceAppend(parts[0] + [sep], JoinWith(parts[1..], sep));
      AllSpaceAppend(parts[0], [sep]);
      if k > 0 {
        JoinVisible(parts[1..], sep, k - 1);
      }
    }
  }

  /** Each part followed by `sep`: the text that `s += part + sep` builds. */
  function Terminated(parts: seq<String>, sep: char): String
  {
    if parts == [] then []
    else Terminated(parts[..|parts| - 1], sep) + parts[|parts| - 1] + [sep]
  }

  /** One more part, after any text `head`. */
  lemma TerminatedSnoc(head: String, parts: seq<String>, x: String, sep: char)
    ensures head + Terminated(parts + [x], sep) == head + Terminated(parts, sep) + x + [sep]
  {
    assert (parts + [x])[..|parts|] == parts;
  }

  /** A single part followed by the separator. */
  lemma TerminatedOne(c: String, sep: char)
    ensures Terminated([c], sep) == c + [sep]
  {
    assert [c][..0] == [];
  }

  /** Number of occurrences of `c` in `s`. */
  function Count(s: String, c: char): nat
  {
    if s == [] then 0 else (if s[0] == c then 1 else 0) + Count(s[1..], c)
  }

  lemma {:induction false} CountAppend(a: String, b: String, c: char)
    ensures Count(a + b, c) == Count(a, c) + Count(b, c)
  {
    if a != [] {
      assert (a + b)[1..] == a[1..] + b;
      CountAppend(a[1..], b, c);
    } else {
      assert a + b == b;
    }
  }

  lemma {:induction false} CountAbsent(s: String, c: char)
    requires c !in s
    ensures Count(s, c) == 0
  {
    if s != [] {
      assert c !in s[1..];
      CountAbsent(s[1..], c);
    }
  }

  /** Splitting yields one more piece than there are separators. */
  lemma {:induction false} SplitOnLength(s: String, sep: char)
    ensures |SplitOn(s, sep)| == Count(s, sep) + 1
  {
    if s != [] {
      SplitOnLength(s[1..], sep);
    }
  }

  /** Joining the pieces of a split gives back the original string. */
  lemma {:induction false} JoinSplit(s: String, sep: char)
    ensures JoinWith(SplitOn(s, sep), sep) == s
  {
    if s != [] {
      var rest := SplitOn(s[1..], sep);
      JoinSplit(s[1..], sep);
      if s[0] == sep {
        assert ([[]] + rest)[1..] == rest;
      } else {
        var r := [[s[0]] + rest[0]] + rest[1..];
        if |rest| == 1 {
          assert JoinWith(r, sep) == [s[0]] + rest[0];
          assert [s[0]] + s[1..] == s;
        } else {
          assert r[1..] == rest[1..];
          assert JoinWith(rest, sep) == rest[0] + [sep] + JoinWith(rest[1..], sep);
        }
      }
    }
  }

  /** Splitting `p + sep + x`, where `p` has no separator, peels off `p`. */
  lemma {:induction false} SplitOnCons(p: String, x: String, sep: char)
    requires sep !in p
    ensures SplitOn(p + [sep] + x, sep) == [p] + SplitOn(x, sep)
  {
    if p == [] {
      assert p + [sep] + x == [sep] + x;
      assert ([sep] + x)[1..] == x;
    } else {
      assert (p + [sep] + x)[1..] == p[1..] + [sep] + x;
      SplitOnCons(p[1..], x, sep);
      assert [p[0]] + p[1..] == p;
    }
  }

  /** A string without the separator is a single piece. */
  lemma {:induction false} SplitOnAbsent(s: String, sep: char)
    requires sep !in s
    ensures SplitOn(s, sep) == [s]
  {
    if s != [] {
      assert sep !in s[1..];
      SplitOnAbsent(s[1..], sep);
      assert [s[0]] + s[1..] == s;
    }
  }

  lemma {:induction false} TerminatedAppend(a: seq<String>, b: seq<String>, sep: char)
    ensures Terminated(a + b, sep) == Terminated(a, sep) + Terminated(b, sep)
    decreases |b|
  {
    if b == [] {
      assert a + b == a;
    } else {
      var b' := b[..|b| - 1];
      assert (a + b)[..|a + b| - 1] == a + b';
      assert (a + b)[|a + b| - 1] == b[|b| - 1];
      TerminatedAppend(a, b', sep);
    }
  }

  /** Separator-terminated parts followed by a last part split back into
      exactly those parts, when no part holds the separator. */
  lemma {:induction false} SplitTerminated(parts: seq<String>, last: String, sep: char)
    requires forall k :: 0 <= k < |parts| ==> sep !in parts[k]
    requires sep !in last
    ensures SplitOn(Terminated(parts, sep) + last, sep) == parts + [last]
    decreases |parts|
  {
    if parts == [] {
      assert Terminated(parts, sep) + last == last;
      SplitOnAbsent(last, sep);
    } else {
      var rest := parts[1..];
      forall k | 0 <= k < |rest| ensures sep !in rest[k] {
        assert rest[k] == parts[k + 1];
      }
      SplitTerminated(rest, last, sep);
      TerminatedCons(parts, sep, last);
      var tail := Terminated(rest, sep) + last;
      SplitOnCons(parts[0], tail, sep);
      ConsSlice(parts);
    }
  }

  /** The first part, its separator, then the rest terminated, then `last`. */
  lemma TerminatedCons(parts: seq<String>, sep: char, last: String)
    requires parts != []
    ensures Terminated(parts, sep) + last == parts[0] + [sep] + (Terminated(parts[1..], sep) + last)
  {
    TerminatedAppend([parts[0]], parts[1..], sep);
    ConsSlice(parts);
    TerminatedOne(parts[0], sep);
  }

  /** `sep.join(parts)` is every part but the last terminated, then the last. */
  lemma {:induction false} JoinIsTerminated(parts: seq<String>, sep: char)
    requires parts != []
    ensures JoinWith(parts, sep) == Terminated(parts[..|parts| - 1], sep) + parts[|parts| - 1]
  {
    if |parts| > 1 {
      var rest := parts[1..];
      JoinIsTerminated(rest, sep);
      assert parts[..|parts| - 1] == [parts[0]] + rest[..|rest| - 1];
      TerminatedAppend([parts[0]], rest[..|rest| - 1], sep);
      assert [parts[0]][..0] == [];
    } else {
      assert parts[..0] == [];
    }
  }

  /** `sep.join(parts) + sep` puts `sep` after every part. */
  lemma JoinThenSep(parts: seq<String>, sep: char)
    requires parts != []
    ensures JoinWith(parts, sep) + [sep] == Terminated(parts, sep)
  {
    JoinIsTerminated(parts, sep);
  }

  /** Splitting a join gives back the parts, when no part holds the separator. */
  lemma SplitJoin(parts: seq<String>, sep: char)
    requires parts != []
    requires forall k :: 0 <= k < |parts| ==> sep !in parts[k]
    ensures SplitOn(JoinWith(parts, sep), sep) == parts
  {
    JoinIsTerminated(parts, sep);
    SplitTerminated(parts[..|parts| - 1], parts[|parts| - 1], sep);
    assert parts[..|parts| - 1] + [parts[|parts| - 1]] == parts;
  }

  /** Every character of a piece of a split occurs in the split string. */
  lemma {:induction false} SplitOnChars(s: String, sep: char)
    ensures forall k, c :: 0 <= k < |SplitOn(s, sep)| && c in SplitOn(s, sep)[k] ==> c in s
  {
    if s != [] {
      SplitOnChars(s[1..], sep);
      var rest := SplitOn(s[1..], sep);
      var r := SplitOn(s, sep);
      assert s == [s[0]] + s[1..];
      forall k, c | 0 <= k < |r| && c in r[k] ensures c in s {
        if s[0] == sep {
          assert r[0] == [];
          if k > 0 {
            assert r[k] == rest[k - 1];
            assert c in s[1..];
          }
        } else if k == 0 {
          assert r[0] == [s[0]] + rest[0];
          if c != s[0] {
            assert c in rest[0];
            assert c in s[1..];
          }
        } else {
          assert r[k] == rest[k];
          assert c in s[1..];
        }
      }
    }
  }

  // ---------------------------------------------------------------------
  // split() with no argument

  /** Length of the leading run of non-whitespace characters. */
  function WordEnd(s: String): (n: nat)
    ensures n <= |s|
    ensures forall i :: 0 <= i < n ==> !IsSpace(s[i])
    ensures n < |s| ==> IsSpace(s[n])
  {
    if s == [] || IsSpace(s[0]) then 0 else 1 + WordEnd(s[1..])
  }

  /** Python's `s.split()`: maximal runs of non-whitespace, in order; every
      unit is non-empty and free of whitespace. */
  function SplitWs(s: String): (r: seq<String>)
    ensures forall k :: 0 <= k < |r| ==> r[k] != [] && !HasSpace(r[k])
    decreases |s|
  {
    var a := SkipSpaces(s, 0);
    if a == |s| then []
    else
      var t := s[a..];
      var n := WordEnd(t);
      [t[..n]] + SplitWs(t[n..])
  }

  predicate HasSpace(s: String) {
    exists i :: 0 <= i < |s| && IsSpace(s[i])
  }

  /** SkipSpaces is the first non-whitespace position at or after `from`:
      any position with that property is it. */
  lemma SkipSpacesUnique(s: String, from: nat, n: nat)
    requires from <= n <= |s|
    requires forall i :: from <= i < n ==> IsSpace(s[i])
    requires n < |s| ==> !IsSpace(s[n])
    ensures SkipSpaces(s, from) == n
  {
  }

  /** WordEnd is the first whitespace position (or the end): any position
      with that property is it. */
  lemma WordEndUnique(s: String, n: nat)
    requires n <= |s|
    requires forall i :: 0 <= i < n ==> !IsSpace(s[i])
    requires n < |s| ==> IsSpace(s[n])
    ensures WordEnd(s) == n
  {
  }

  /** Leading whitespace gives no unit. */
  lemma SplitWsLeadingSpace(w: String, x: String)
    requires AllSpace(w)
    ensures SplitWs(w + x) == SplitWs(x)
  {
    var s := w + x;
    var a' := SkipSpaces(x, 0);
    forall i | 0 <= i < |w| + a' ensures IsSpace(s[i]) {
      if i < |w| {
        assert s[i] == w[i];
      } else {
        assert s[i] == x[i - |w|];
      }
    }
    if |w| + a' < |s| {
      assert s[|w| + a'] == x[a'];
    }
    SkipSpacesUnique(s, 0, |w| + a');
    assert s[|w| + a'..] == x[a'..];
  }

  /** A whitespace-free word followed by whitespace is one whole unit:
      split() cuts exactly at the whitespace. */
  lemma SplitWsWord(u: String, w: String, x: String)
    requires u != [] && !HasSpace(u)
    requires w != [] && AllSpace(w)
    ensures SplitWs(u + w + x) == [u] + SplitWs(x)
  {
    var s := u + w + x;
    assert s[0] == u[0];
    SkipSpacesUnique(s, 0, 0);
    assert s[0..] == s;
    assert forall i :: 0 <= i < |u| ==> s[i] == u[i];
    assert s[|u|] == w[0];
    WordEndUnique(s, |u|);
    assert s[..|u|] == u;
    assert s[|u|..] == w + x;
    SplitWsLeadingSpace(w, x);
  }

  /** A whitespace-free word is its own single unit. */
  lemma SplitWsSingle(u: String)
    requires u != [] && !HasSpace(u)
    ensures SplitWs(u) == [u]
  {
    SkipSpacesUnique(u, 0, 0);
    assert u[0..] == u;
    WordEndUnique(u, |u|);
    assert u[..|u|] == u && u[|u|..] == [];
  }

  /** A string without whitespace holds no whitespace character. */
  lemma NoSpaceExcludes(s: String, c: char)
    requires !HasSpace(s) && IsSpace(c)
    ensures c !in s
  {
  }

  /** A string made of characters of a string without whitespace has none. */
  lemma NoSpaceWithin(s: String, t: String)
    requires !HasSpace(s)
    requires forall c :: c in t ==> c in s
    ensures !HasSpace(t)
  {
    if HasSpace(t) {
      var p :| 0 <= p < |t| && IsSpace(t[p]);
      NoSpaceExcludes(s, t[p]);
    }
  }

  /** The characters of `s` that are not whitespace, in order. */
  function RemoveSpaces(s: String): String
  {
    if s == [] then [] else (if IsSpace(s[0]) then [] else [s[0]]) + RemoveSpaces(s[1..])
  }

  function Concat(parts: seq<String>): String
  {
    if parts == [] then [] else parts[0] + Concat(parts[1..])
  }

  lemma {:induction false} RemoveSpacesAppend(a: String, b: String)
    ensures RemoveSpaces(a + b) == RemoveSpaces(a) + RemoveSpaces(b)
  {
    if a == [] {
      assert a + b == b;
    } else {
      assert (a + b)[1..] == a[1..] + b;
      RemoveSpacesAppend(a[1..], b);
    }
  }

  lemma {:induction false} RemoveSpacesAllSpace(s: String)
    requires AllSpace(s)
    ensures RemoveSpaces(s) == []
  {
    if s != [] {
      RemoveSpacesAllSpace(s[1..]);
    }
  }

  lemma {:induction false} RemoveSpacesNoSpace(s: String)
    requires forall i :: 0 <= i < |s| ==> !IsSpace(s[i])
    ensures RemoveSpaces(s) == s
  {
    if s != [] {
      RemoveSpacesNoSpace(s[1..]);
      assert [s[0]] + s[1..] == s;
    }
  }

  /** `split()` loses exactly the whitespace: its units, concatenated, are
      the input's non-whitespace characters in order. */
  lemma {:induction false} SplitWsKeepsText(s: String)
    ensures Concat(SplitWs(s)) == RemoveSpaces(s)
    decreases |s|
  {
    var a := SkipSpaces(s, 0);
    var t := s[a..];
    var lead := s[..a];
    SplitAt(s, a);
    RemoveSpacesAppend(lead, t);
    RemoveSpacesAllSpace(lead);
    if a == |s| {
      assert t == [];
    } else {
      var n := WordEnd(t);
      SplitAt(t, n);
      RemoveSpacesAppend(t[..n], t[n..]);
      RemoveSpacesNoSpace(t[..n]);
      SplitWsKeepsText(t[n..]);
      ConcatCons(t[..n], SplitWs(t[n..]));
    }
  }

  lemma ConcatCons(x: String, rest: seq<String>)
    ensures Concat([x] + rest) == x + Concat(rest)
  {
    assert ([x] + rest)[1..] == rest;
  }

  /** `split()` finds no unit exactly in a blank string. */
  lemma SplitWsEmpty(s: String)
    ensures SplitWs(s) == [] <==> AllSpace(s)
  {
    var a := SkipSpaces(s, 0);
  }

  // ---------------------------------------------------------------------
  // replace(old, new)

  /** Python's `s.replace(pat, rep)` for a non-empty pattern: occurrences are
      replaced left to right and do not overlap. */
  function ReplaceAll(s: String, pat: String, rep: String): (r: String)
    requires pat != []
    ensures |rep| <= |pat| ==> |r| <= |s|
    ensures |rep| == |pat| ==> |r| == |s|
    decreases |s|
  {
    if |s| < |pat| then s
    else if s[..|pat|] == pat then rep + ReplaceAll(s[|pat|..], pat, rep)
    else [s[0]] + ReplaceAll(s[1..], pat, rep)
  }

  /** Replacing one character by another is splitting on the first and
      joining with the second: `s.replace(c, d) == d.join(s.split(c))`. So
      each `c` becomes a `d` in its own place, and nothing else changes. */
  lemma {:induction false} ReplaceCharIsJoinSplit(s: String, c: char, d: char)
    ensures ReplaceAll(s, [c], [d]) == JoinWith(SplitOn(s, c), d)
    decreases |s|
  {
    if s != [] {
      var rest := SplitOn(s[1..], c);
      ReplaceCharIsJoinSplit(s[1..], c, d);
      assert s[..1] == [s[0]];
      if s[0] == c {
        assert ([[]] + rest)[1..] == rest;
      } else {
        var parts := [[s[0]] + rest[0]] + rest[1..];
        if |rest| > 1 {
          assert parts[1..] == rest[1..];
          assert JoinWith(rest, d) == rest[0] + [d] + JoinWith(rest[1..], d);
        }
      }
    }
  }

  /** `s` holds `pat` starting at position `i`. */
  predicate OccursAt(s: String, pat: String, i: int) {
    0 <= i && i + |pat| <= |s| && s[i..i + |pat|] == pat
  }

  /** Without any occurrence of the pattern, `replace` changes nothing. */
  lemma {:induction false} ReplaceAbsent(s: String, pat: String, rep: String)
    requires pat != []
    requires forall i :: !OccursAt(s, pat, i)
    ensures ReplaceAll(s, pat, rep) == s
    decreases |s|
  {
    if |s| >= |pat| {
      assert !OccursAt(s, pat, 0);
      assert s[..|pat|] == s[0..0 + |pat|];
      forall i ensures !OccursAt(s[1..], pat, i) {
        if 0 <= i && i + |pat| <= |s| - 1 {
          assert s[1..][i..i + |pat|] == s[i + 1..i + 1 + |pat|];
          assert !OccursAt(s, pat, i + 1);
        }
      }
      ReplaceAbsent(s[1..], pat, rep);
      assert [s[0]] + s[1..] == s;
    }
  }

  /** A character found in neither the string nor the replacement is not
      in the result. */
  lemma {:induction false} ReplaceKeepsOut(s: String, pat: String, rep: String, c: char)
    requires pat != []
    requires c !in s && c !in rep
    ensures c !in ReplaceAll(s, pat, rep)
    decreases |s|
  {
    if |s| >= |pat| {
      if s[..|pat|] == pat {
        assert c !in s[|pat|..];
        ReplaceKeepsOut(s[|pat|..], pat, rep, c);
      } else {
        assert c !in s[1..];
        ReplaceKeepsOut(s[1..], pat, rep, c);
      }
    }
  }

  /** Replacing a character by a different one leaves none of it. */
  lemma {:induction false} ReplaceCharRemoves(s: String, c: char, d: char)
    requires c != d
    ensures c !in ReplaceAll(s, [c], [d])
    decreases |s|
  {
    if |s| >= 1 {
      if s[..1] == [c] {
        ReplaceCharRemoves(s[1..], c, d);
      } else {
        assert s[0] != c by { assert s[..1] == [s[0]]; }
        ReplaceCharRemoves(s[1..], c, d);
      }
    }
  }
}
