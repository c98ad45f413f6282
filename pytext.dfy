/**
  The handful of Python `str` operations the CSV uploader relies on, stated
  over `seq<char>`: `strip()`, `split(sep)`, `sep.join(parts)`,
  `replace(old, new, 1)`, `isdigit()`, `endswith()`, `lower()` and
  character replacement. Characters are treated as ASCII: Python's Unicode
  whitespace, digits and case mappings beyond ASCII are not modelled.
*/
module PyText {

  /** A value, or Python's `None`. */
  datatype Option<T> = None | Some(value: T)

  /** The ASCII characters for which Python's `str.isspace` holds. */
  predicate IsSpace(c: char) {
    c == ' ' || c == '\t' || c == '\n' || c == '\r' || c == '\U{0B}' || c == '\U{0C}'
    || ('\U{1C}' <= c <= '\U{1F}')
  }

  predicate IsDigit(c: char) {
    '0' <= c <= '9'
  }

  predicate AllDigits(s: string) {
    forall i :: 0 <= i < |s| ==> IsDigit(s[i])
  }

  /** Python's `s.isdigit()`: non-empty and made of digits only. */
  predicate IsDigitString(s: string) {
    |s| > 0 && AllDigits(s)
  }

  /** Number of occurrences of `c` in `s`. */
  function Count<X(==)>(s: seq<X>, c: X): (n: nat)
    ensures n <= |s|
    ensures n == 0 <==> c !in s
  {
    if |s| == 0 then 0 else (if s[0] == c then 1 else 0) + Count(s[1..], c)
  }

  // ---------------------------------------------------------------------
  // strip()

  /** Length of the run of whitespace at the front of `s`. */
  function LeadingSpaces(s: string): (n: nat)
    ensures n <= |s|
  {
    if |s| == 0 || !IsSpace(s[0]) then 0 else 1 + LeadingSpaces(s[1..])
  }

  /** Length of the run of whitespace at the back of `s`, not reaching below index `lo`. */
  function TrailingSpaces(s: string, lo: nat): (n: nat)
    requires lo <= |s|
    ensures n <= |s| - lo
  {
    if |s| == lo || !IsSpace(s[|s| - 1]) then 0 else 1 + TrailingSpaces(s[..|s| - 1], lo)
  }

  /** The leading run is whitespace and is maximal. */
  lemma {:induction false} LeadingSpacesSpec(s: string)
    ensures forall i :: 0 <= i < LeadingSpaces(s) ==> IsSpace(s[i])
    ensures LeadingSpaces(s) == |s| || !IsSpace(s[LeadingSpaces(s)])
  {
    if |s| > 0 && IsSpace(s[0]) {
      LeadingSpacesSpec(s[1..]);
      forall i | 1 <= i < LeadingSpaces(s) ensures IsSpace(s[i]) {
        assert s[i] == s[1..][i - 1];
      }
    }
  }

  /** The trailing run is whitespace and is maximal. */
  lemma {:induction false} TrailingSpacesSpec(s: string, lo: nat)
    requires lo <= |s|
    ensures forall i :: |s| - TrailingSpaces(s, lo) <= i < |s| ==> IsSpace(s[i])
    ensures TrailingSpaces(s, lo) == |s| - lo || !IsSpace(s[|s| - 1 - TrailingSpaces(s, lo)])
  {
    if |s| > lo && IsSpace(s[|s| - 1]) {
      TrailingSpacesSpec(s[..|s| - 1], lo);
    }
  }

  /** Python's `s.strip()`. */
  function Strip(s: string): string
  {
    var a := LeadingSpaces(s);
    s[a..|s| - TrailingSpaces(s, a)]
  }

  /**
    `s.strip()` is one contiguous piece of `s`, everything of `s` outside it
    is whitespace, and the piece neither starts nor ends with whitespace.
  */
  lemma StripSpec(s: string)
    ensures Strip(s) == "" || (!IsSpace(Strip(s)[0]) && !IsSpace(Strip(s)[|Strip(s)| - 1]))
    ensures LeadingSpaces(s) + |Strip(s)| <= |s| && s[LeadingSpaces(s)..LeadingSpaces(s) + |Strip(s)|] == Strip(s)
    ensures forall i :: 0 <= i < |s| && !(LeadingSpaces(s) <= i < LeadingSpaces(s) + |Strip(s)|) ==> IsSpace(s[i])
  {
    var a := LeadingSpaces(s);
    var b := TrailingSpaces(s, a);
    LeadingSpacesSpec(s);
    TrailingSpacesSpec(s, a);
    var r := s[a..|s| - b];
    assert Strip(s) == r;
    if r != "" {
      assert r[0] == s[a];
      assert r[|r| - 1] == s[|s| - 1 - b];
    }
  }

  /** A character absent from `s` is absent from `s.strip()`. */
  lemma StripKeepsAbsentChar(s: string, c: char)
    requires c !in s
    ensures c !in Strip(s)
  {
    StripSpec(s);
  }

  /** Stripping twice is stripping once. */
  lemma StripIdempotent(s: string)
    ensures Strip(Strip(s)) == Strip(s)
  {
    var r := Strip(s);
    StripSpec(s);
    if r != "" {
      assert LeadingSpaces(r) == 0;
      assert r[0..] == r;
      assert TrailingSpaces(r, 0) == 0;
    }
  }

  /** `s.strip()` is empty exactly when `s` is all whitespace. */
  lemma StripEmptyIff(s: string)
    ensures Strip(s) == "" <==> forall i :: 0 <= i < |s| ==> IsSpace(s[i])
  {
    StripSpec(s);
    LeadingSpacesSpec(s);
  }

  // ---------------------------------------------------------------------
  // split(sep) and sep.join(parts)

  /**
    Python's `s.split(sep)` for a one-character separator: always at least
    one piece (`"".split(";") == [""]`), and no piece holds the separator.
  */
  function Split(s: string, sep: char): (parts: seq<string>)
    ensures |parts| >= 1
  {
    if |s| == 0 then [""]
    else
      var rest := Split(s[1..], sep);
      if s[0] == sep then [""] + rest
      else [[s[0]] + rest[0]] + rest[1..]
  }

  /** No piece of a split holds the separator or a character absent from the text. */
  lemma {:induction false} SplitPieces(s: string, sep: char)
    ensures forall k :: 0 <= k < |Split(s, sep)| ==> PieceOf(Split(s, sep)[k], s, sep)
  {
    if |s| > 0 {
      SplitPieces(s[1..], sep);
      var rest := Split(s[1..], sep);
      var parts := Split(s, sep);
      forall k | 0 <= k < |parts| ensures PieceOf(parts[k], s, sep) {
        if s[0] == sep {
          if k > 0 {
            assert parts[k] == rest[k - 1];
            assert PieceOf(rest[k - 1], s[1..], sep);
          }
        } else if k == 0 {
          assert parts[0] == [s[0]] + rest[0];
          assert PieceOf(rest[0], s[1..], sep);
        } else {
          assert parts[k] == rest[k];
          assert PieceOf(rest[k], s[1..], sep);
        }
      }
    }
  }

  /** `p` holds no `sep` and no character absent from `s`. */
  predicate PieceOf(p: string, s: string, sep: char) {
    forall c :: c in p ==> c != sep && c in s
  }

  /** Python's `sep.join(parts)`. */
  function JoinWith(parts: seq<string>, sep: string): string
  {
    if |parts| == 0 then ""
    else if |parts| == 1 then parts[0]
    else parts[0] + sep + JoinWith(parts[1..], sep)
  }

  /** Joining the pieces of a split gives back the text. */
  lemma {:induction false} JoinSplit(s: string, sep: char)
    ensures JoinWith(Split(s, sep), [sep]) == s
  {
    if |s| > 0 {
      var rest := Split(s[1..], sep);
      JoinSplit(s[1..], sep);
      if s[0] == sep {
        assert Split(s, sep) == [""] + rest;
        assert JoinWith(Split(s, sep), [sep]) == "" + [sep] + JoinWith(rest, [sep]);
        assert s == [s[0]] + s[1..];
      } else {
        var parts := Split(s, sep);
        assert parts == [[s[0]] + rest[0]] + rest[1..];
        if |rest| == 1 {
          assert JoinWith(parts, [sep]) == [s[0]] + rest[0];
        } else {
          assert parts[1..] == rest[1..];
          assert JoinWith(rest, [sep]) == rest[0] + [sep] + JoinWith(rest[1..], [sep]);
          assert JoinWith(parts, [sep]) == [s[0]] + rest[0] + [sep] + JoinWith(rest[1..], [sep]);
        }
        assert s == [s[0]] + s[1..];
      }
    }
  }

  lemma {:induction false} SplitNoSep(a: string, sep: char)
    requires sep !in a
    ensures Split(a, sep) == [a]
  {
    if |a| > 0 {
      SplitNoSep(a[1..], sep);
      assert a == [a[0]] + a[1..];
    }
  }

  lemma {:induction false} SplitAfterPiece(a: string, sep: char, b: string)
    requires sep !in a
    ensures Split(a + [sep] + b, sep) == [a] + Split(b, sep)
  {
    if |a| == 0 {
      assert a + [sep] + b == [sep] + b;
      assert ([sep] + b)[1..] == b;
    } else {
      SplitAfterPiece(a[1..], sep, b);
      assert (a + [sep] + b)[1..] == a[1..] + [sep] + b;
      assert a == [a[0]] + a[1..];
    }
  }

  /** Splitting a join of separator-free pieces gives back the pieces. */
  lemma {:induction false} SplitJoin(parts: seq<string>, sep: char)
    requires |parts| >= 1
    requires forall i :: 0 <= i < |parts| ==> sep !in parts[i]
    ensures Split(JoinWith(parts, [sep]), sep) == parts
  {
    if |parts| == 1 {
      SplitNoSep(parts[0], sep);
    } else {
      SplitJoin(parts[1..], sep);
      SplitAfterPiece(parts[0], sep, JoinWith(parts[1..], [sep]));
      assert parts == [parts[0]] + parts[1..];
    }
  }

  // ---------------------------------------------------------------------
  // replace(c, '', 1) and replace(c, '')

  /** `s` contains the elements of `sub` in order, possibly with others between. */
  predicate IsSubsequence<X(==)>(sub: seq<X>, s: seq<X>)
  {
    sub == [] || (s != [] && ((sub[0] == s[0] && IsSubsequence(sub[1..], s[1..])) || IsSubsequence(sub, s[1..])))
  }

  /** Python's `s.find(c)` and `list.index(c)`, except that a missing `c` gives `|s|`. */
  function IndexOf<X(==)>(s: seq<X>, c: X): (k: nat)
    ensures k <= |s|
    ensures k == |s| <==> c !in s
    ensures k < |s| ==> s[k] == c
    ensures forall i :: 0 <= i < k ==> s[i] != c
  {
    if |s| == 0 then 0 else if s[0] == c then 0 else 1 + IndexOf(s[1..], c)
  }

  /**
    Python's `s.replace(c, '', 1)` on text and `s.remove(c)` on a list that
    holds `c`: drop the first occurrence of `c`.
  */
  function RemoveFirst<X(==)>(s: seq<X>, c: X): seq<X>
  {
    if |s| == 0 then s
    else if s[0] == c then s[1..]
    else [s[0]] + RemoveFirst(s[1..], c)
  }

  /** One occurrence fewer when `c` occurs, nothing changed otherwise. */
  lemma {:induction false} RemoveFirstSpec<X>(s: seq<X>, c: X)
    ensures c in s ==> |RemoveFirst(s, c)| == |s| - 1 && Count(RemoveFirst(s, c), c) == Count(s, c) - 1
    ensures c !in s ==> RemoveFirst(s, c) == s
  {
    if |s| > 0 && s[0] != c {
      RemoveFirstSpec(s[1..], c);
      assert c in s ==> c in s[1..];
      assert s == [s[0]] + s[1..];
    }
  }

  /** Exactly the first occurrence of `c` is cut out; everything else stays in place. */
  lemma {:induction false} RemoveFirstAt<X>(s: seq<X>, c: X)
    requires c in s
    ensures RemoveFirst(s, c) == s[..IndexOf(s, c)] + s[IndexOf(s, c) + 1..]
  {
    if s[0] != c {
      assert c in s[1..];
      RemoveFirstAt(s[1..], c);
      var k := IndexOf(s[1..], c);
      assert IndexOf(s, c) == k + 1;
      assert RemoveFirst(s, c) == [s[0]] + RemoveFirst(s[1..], c);
      assert s[..k + 1] == [s[0]] + s[1..][..k];
      assert s[k + 2..] == s[1..][k + 1..];
    }
  }

  /** Python's `s.replace(c, '')`: drop every occurrence of `c`. */
  function RemoveAll(s: string, c: char): (r: string)
    ensures forall x :: x in r <==> x in s && x != c
  {
    if |s| == 0 then s
    else if s[0] == c then RemoveAll(s[1..], c)
    else [s[0]] + RemoveAll(s[1..], c)
  }

  /**
    The result keeps every character other than `c`, as often as it occurs
    and in order, and holds no `c`.
  */
  lemma {:induction false} RemoveAllSpec(s: string, c: char)
    ensures c !in RemoveAll(s, c)
    ensures forall x :: x != c ==> multiset(RemoveAll(s, c))[x] == multiset(s)[x]
    ensures IsSubsequence(RemoveAll(s, c), s)
  {
    if |s| > 0 {
      RemoveAllSpec(s[1..], c);
      var rest := RemoveAll(s[1..], c);
      assert s == [s[0]] + s[1..];
      if s[0] != c {
        assert ([s[0]] + rest)[1..] == rest;
      }
    }
  }

  /** Python's `s.replace(a, b)` for single characters. */
  function ReplaceChar(s: string, a: char, b: char): (r: string)
    ensures |r| == |s|
    ensures forall i :: 0 <= i < |s| ==> r[i] == (if s[i] == a then b else s[i])
  {
    if |s| == 0 then s
    else [if s[0] == a then b else s[0]] + ReplaceChar(s[1..], a, b)
  }

  // ---------------------------------------------------------------------
  // endswith() and lower()

  predicate EndsWith(s: string, suffix: string) {
    |suffix| <= |s| && s[|s| - |suffix|..] == suffix
  }

  predicate IsUpperAscii(c: char) {
    'A' <= c <= 'Z'
  }

  function LowerChar(c: char): char {
    if IsUpperAscii(c) then (c as int + 32) as char else c
  }

  /** Python's `s.lower()` on ASCII letters. */
  function LowerAscii(s: string): (r: string)
    ensures |r| == |s|
    ensures forall i :: 0 <= i < |s| ==> r[i] == LowerChar(s[i])
  {
    if |s| == 0 then s else [LowerChar(s[0])] + LowerAscii(s[1..])
  }
}
