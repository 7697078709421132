/** Python's `str` methods that the qacct transposer relies on (`isspace`,
    `strip`, `split(sep)`, `split(maxsplit=1)`, `join` and one-character
    `replace`), as functions on sequences of characters. */
module PyStr {

  /** Python's `str.isspace` on one character: the ASCII whitespace and
      separator control characters, NEL, NBSP and the Unicode space and
      line/paragraph separators. The ASCII whitespace characters are among
      them; the characters a log uses as data delimiters are not. */
  function IsSpace(c: char): (b: bool)
    ensures c == ' ' || c == '\t' || c == '\n' || c == '\r' || c == '\U{0B}' || c == '\U{0C}' ==> b
    ensures c == ',' || c == ';' || c == '=' || c == '\'' ==> !b
  {
    || c == ' '
    || ('\t' <= c <= '\r')
    || ('\U{1C}' <= c <= '\U{1F}')
    || c == '\U{85}' || c == '\U{A0}' || c == '\U{1680}'
    || ('\U{2000}' <= c <= '\U{200A}')
    || c == '\U{2028}' || c == '\U{2029}' || c == '\U{202F}' || c == '\U{205F}'
    || c == '\U{3000}'
  }

  /** Every character of s is whitespace. */
  predicate IsBlank(s: string)
  {
    forall i :: 0 <= i < |s| ==> IsSpace(s[i])
  }

  /** No character of s is whitespace. */
  predicate NoSpace(s: string)
  {
    forall i :: 0 <= i < |s| ==> !IsSpace(s[i])
  }

  /** Length of the whitespace run that starts s. */
  function LeadingSpace(s: string): (n: nat)
    ensures n <= |s| && IsBlank(s[..n])
    ensures n < |s| ==> !IsSpace(s[n])
  {
    if s != [] && IsSpace(s[0]) then
      var n := 1 + LeadingSpace(s[1..]);
      assert s[..n] == [s[0]] + s[1..][..n - 1];
      n
    else
      0
  }

  /** Length of the whitespace run that ends s. */
  function TrailingSpace(s: string): (n: nat)
    ensures n <= |s| && IsBlank(s[|s| - n..])
    ensures n < |s| ==> !IsSpace(s[|s| - n - 1])
  {
    if s != [] && IsSpace(s[|s| - 1]) then
      var n := 1 + TrailingSpace(s[..|s| - 1]);
      assert s[|s| - n..] == s[..|s| - 1][|s| - n..] + [s[|s| - 1]];
      n
    else
      0
  }

  /** `s.lstrip()`: s without its leading whitespace. */
  function TrimLeft(s: string): (r: string)
    ensures r == [] <==> IsBlank(s)
    ensures r != [] ==> !IsSpace(r[0])
  {
    var i := LeadingSpace(s);
    assert i == |s| ==> s == s[..i];
    s[i..]
  }

  /** `s.rstrip()`: s without its trailing whitespace. */
  function TrimRight(s: string): (r: string)
    ensures r == [] <==> IsBlank(s)
    ensures r != [] ==> !IsSpace(r[|r| - 1])
  {
    var j := |s| - TrailingSpace(s);
    assert j == 0 ==> s == s[j..];
    s[..j]
  }

  /** `s.strip()`: s without its leading and its trailing whitespace;
      empty exactly when s is blank. */
  function Strip(s: string): (r: string)
    ensures r == [] <==> IsBlank(s)
    ensures r != [] ==> !IsSpace(r[0]) && !IsSpace(r[|r| - 1])
  {
    TrimRight(TrimLeft(s))
  }

  /** TrimLeft removes a blank prefix and nothing else. */
  lemma TrimLeftRemovesBlank(s: string)
    ensures var r := TrimLeft(s);
            |r| <= |s| && r == s[|s| - |r|..] && IsBlank(s[..|s| - |r|])
  {
  }

  /** TrimRight removes a blank suffix and nothing else. */
  lemma TrimRightRemovesBlank(s: string)
    ensures var r := TrimRight(s);
            |r| <= |s| && r == s[..|r|] && IsBlank(s[|r|..])
  {
  }

  /** What Strip removes is whitespace only: the part it keeps is a
      contiguous part of s, with a blank run before it and a blank run
      after it. */
  lemma StripRemovesBlank(s: string)
    ensures var r := Strip(s);
            var i := |s| - |TrimLeft(s)|;
            && i + |r| <= |s| && r == s[i..i + |r|]
            && IsBlank(s[..i]) && IsBlank(s[i + |r|..])
  {
    var t := TrimLeft(s);
    var r := TrimRight(t);
    var i := |s| - |t|;
    TrimLeftRemovesBlank(s);
    TrimRightRemovesBlank(t);
    assert t[|r|..] == s[i + |r|..];
    assert t[..|r|] == s[i..i + |r|];
  }

  /** Stripping a string that neither starts nor ends with whitespace
      changes nothing. */
  lemma StripUnchanged(s: string)
    requires s == [] || (!IsSpace(s[0]) && !IsSpace(s[|s| - 1]))
    ensures Strip(s) == s
  {
  }

  /** Position of the first whitespace character of s, or |s| if none. */
  function FirstSpace(s: string): (n: nat)
    ensures n <= |s| && NoSpace(s[..n])
    ensures n < |s| ==> IsSpace(s[n])
  {
    if s == [] || IsSpace(s[0]) then 0
    else
      var n := 1 + FirstSpace(s[1..]);
      assert s[..n] == [s[0]] + s[1..][..n - 1];
      n
  }

  /** `s.split(maxsplit=1)`: no part for a blank s; otherwise the first
      whitespace-delimited token, followed, when anything but whitespace
      comes after it, by the rest of s from the end of the whitespace run
      that closes the token. */
  function SplitFirst(s: string): (r: seq<string>)
    ensures |r| <= 2
    ensures r == [] <==> IsBlank(s)
    ensures r != [] ==> r[0] != [] && NoSpace(r[0])
    ensures |r| == 2 ==> r[1] != [] && !IsSpace(r[1][0])
  {
    var t := TrimLeft(s);
    if t == [] then []
    else
      var n := FirstSpace(t);
      var rest := TrimLeft(t[n..]);
      if rest == [] then [t[..n]] else [t[..n], rest]
  }

  /** A text of one token, without surrounding whitespace, is its own
      single part. */
  lemma SplitFirstOne(t: string)
    requires t != [] && NoSpace(t)
    ensures SplitFirst(t) == [t]
  {
    assert LeadingSpace(t) == 0;
    assert TrimLeft(t) == t;
    var n := FirstSpace(t);
    assert n == |t|;
    assert t[..n] == t && t[n..] == [];
  }

  /** A text with inner whitespace, and none around it, splits into the
      part before its first whitespace run (at n) and the part after it
      (from m). */
  lemma SplitFirstTwo(t: string) returns (n: nat, m: nat)
    requires t != [] && !IsSpace(t[0]) && !IsSpace(t[|t| - 1]) && !NoSpace(t)
    ensures 0 < n < m < |t|
    ensures SplitFirst(t) == [t[..n], t[m..]]
    ensures IsBlank(t[n..m]) && NoSpace(t[..n])
    ensures t == t[..n] + t[n..m] + t[m..]
  {
    SplitFirstAt(t);
    n := FirstSpace(t);
    assert n < |t|;
    m := TrimLeftSuffix(t, n);
    assert m < |t| by {
      assert t[n..m] == [] || t[n..m][|t[n..m]| - 1] == t[m - 1];
    }
    Thirds(t, n, m);
  }

  /** A text that starts with a non-space character: its first part ends
      at its first whitespace, and the second is what follows, without
      its leading whitespace. */
  lemma SplitFirstAt(t: string)
    requires t != [] && !IsSpace(t[0])
    ensures var n := FirstSpace(t);
            var rest := TrimLeft(t[n..]);
            SplitFirst(t) == if rest == [] then [t[..n]] else [t[..n], rest]
  {
    assert LeadingSpace(t) == 0;
    assert TrimLeft(t) == t;
  }

  /** TrimLeft of a suffix of t is a later suffix of t, a blank run
      between the two. */
  lemma TrimLeftSuffix(t: string, n: nat) returns (m: nat)
    requires n <= |t|
    ensures n <= m <= |t| && TrimLeft(t[n..]) == t[m..] && IsBlank(t[n..m])
    ensures m < |t| ==> !IsSpace(t[m])
  {
    var tail := t[n..];
    var i := LeadingSpace(tail);
    m := n + i;
    assert tail[i..] == t[m..];
    assert tail[..i] == t[n..m];
  }

  lemma Thirds(t: string, n: nat, m: nat)
    requires n <= m <= |t|
    ensures t == t[..n] + t[n..m] + t[m..]
  {
  }

  /** A stripped text splits into two parts exactly when it holds
      whitespace. */
  lemma SplitFirstCount(t: string)
    requires t == [] || (!IsSpace(t[0]) && !IsSpace(t[|t| - 1]))
    ensures |SplitFirst(t)| == 2 <==> !NoSpace(t)
  {
    if t != [] {
      if NoSpace(t) {
        SplitFirstOne(t);
      } else {
        var n, m := SplitFirstTwo(t);
      }
    }
  }

  /** A character absent from a stripped text is absent from both of its
      parts. */
  lemma SplitFirstAbsent(t: string, c: char)
    requires t == [] || (!IsSpace(t[0]) && !IsSpace(t[|t| - 1]))
    requires c !in t && |SplitFirst(t)| == 2
    ensures c !in SplitFirst(t)[0] && c !in SplitFirst(t)[1]
  {
    SplitFirstCount(t);
    var n, m := SplitFirstTwo(t);
    assert c !in t[..n] && c !in t[m..];
  }

  /** The two parts of a stripped text with inner whitespace: a first token,
      then the rest, which neither starts nor ends with whitespace; between
      them only whitespace, so the text is the two parts around that run;
      a character the text lacks is in neither part. */
  lemma SplitFirstShape(t: string, c: char)
    requires t != [] && !IsSpace(t[0]) && !IsSpace(t[|t| - 1]) && !NoSpace(t) && c !in t
    ensures |SplitFirst(t)| == 2
    ensures var key := SplitFirst(t)[0];
            var value := SplitFirst(t)[1];
            && key != [] && NoSpace(key) && c !in key
            && value != [] && !IsSpace(value[0]) && !IsSpace(value[|value| - 1]) && c !in value
            && |key| + |value| < |t|
            && t == key + t[|key|..|t| - |value|] + value
            && IsBlank(t[|key|..|t| - |value|])
  {
    var n, m := SplitFirstTwo(t);
    assert t[|t[..n]|..|t| - |t[m..]|] == t[n..m];
    assert c !in t[..n] && c !in t[m..];
  }

  /** `sep.join(parts)`. */
  function Join(parts: seq<string>, sep: string): (r: string)
    ensures parts != [] ==> |r| >= |parts[0]| && r[..|parts[0]|] == parts[0]
  {
    if parts == [] then []
    else if |parts| == 1 then parts[0]
    else parts[0] + sep + Join(parts[1..], sep)
  }

  /** `s.split(sep)` for a non-empty separator: the pieces of s between the
      non-overlapping occurrences of sep found from the left. */
  function Split(s: string, sep: string): (r: seq<string>)
    requires sep != []
    ensures |r| >= 1
  {
    SplitFrom(s, sep, [])
  }

  /** The scan behind Split: piece is the part of the current piece already
      read, s what is left of the input. */
  function SplitFrom(s: string, sep: string, piece: string): (r: seq<string>)
    requires sep != []
    ensures |r| >= 1
    decreases |s|
  {
    if |s| < |sep| then [piece + s]
    else if s[..|sep|] == sep then [piece] + SplitFrom(s[|sep|..], sep, [])
    else SplitFrom(s[1..], sep, piece + [s[0]])
  }

  /** Joining the pieces of a split with the separator gives back the
      input. */
  lemma {:induction false} JoinSplit(s: string, sep: string)
    requires sep != []
    ensures Join(Split(s, sep), sep) == s
  {
    JoinSplitFrom(s, sep, []);
  }

  lemma {:induction false} JoinSplitFrom(s: string, sep: string, piece: string)
    requires sep != []
    ensures Join(SplitFrom(s, sep, piece), sep) == piece + s
    decreases |s|
  {
    if |s| < |sep| {
    } else if s[..|sep|] == sep {
      var rest := SplitFrom(s[|sep|..], sep, []);
      JoinSplitFrom(s[|sep|..], sep, []);
      assert ([piece] + rest)[1..] == rest;
      assert s == sep + s[|sep|..];
    } else {
      JoinSplitFrom(s[1..], sep, piece + [s[0]]);
      assert piece + [s[0]] + s[1..] == piece + s;
    }
  }

  /** A one-character separator that does not occur in s leaves the piece
      being read running to the end of s. */
  lemma {:induction false} SplitFromNoSep(s: string, sep: string, piece: string)
    requires |sep| == 1 && sep[0] !in s
    ensures SplitFrom(s, sep, piece) == [piece + s]
    decreases |s|
  {
    if |s| >= 1 {
      assert s[..1] == [s[0]] != sep;
      SplitFromNoSep(s[1..], sep, piece + [s[0]]);
      assert piece + [s[0]] + s[1..] == piece + s;
    }
  }

  /** The first occurrence of a one-character separator closes the piece
      being read. */
  lemma {:induction false} SplitFromFirstSep(a: string, sep: string, b: string, piece: string)
    requires |sep| == 1 && sep[0] !in a
    ensures SplitFrom(a + sep + b, sep, piece) == [piece + a] + SplitFrom(b, sep, [])
    decreases |a|
  {
    var s := a + sep + b;
    if a == [] {
      assert s == sep + b;
      assert s[..1] == sep && s[1..] == b;
      assert piece + a == piece;
    } else {
      assert s[..1] == [a[0]] != sep;
      assert s[1..] == a[1..] + sep + b;
      SplitFromFirstSep(a[1..], sep, b, piece + [a[0]]);
      assert piece + [a[0]] + a[1..] == piece + a;
    }
  }

  /** Splitting the join of non-empty list of parts on a one-character
      separator that none of them contains gives back the parts. */
  lemma {:induction false} SplitJoin(parts: seq<string>, sep: string)
    requires |sep| == 1 && parts != []
    requires forall i :: 0 <= i < |parts| ==> sep[0] !in parts[i]
    ensures Split(Join(parts, sep), sep) == parts
  {
    if |parts| == 1 {
      SplitFromNoSep(parts[0], sep, []);
      assert [] + parts[0] == parts[0];
    } else {
      SplitJoin(parts[1..], sep);
      SplitFromFirstSep(parts[0], sep, Join(parts[1..], sep), []);
      assert Join(parts, sep) == parts[0] + sep + Join(parts[1..], sep);
      assert [] + parts[0] == parts[0];
      assert [parts[0]] + parts[1..] == parts;
    }
  }

  /** sep occurs in w at position p. */
  ghost predicate SepAt(sep: string, w: string, p: int)
  {
    0 <= p && p + |sep| <= |w| && w[p..p + |sep|] == sep
  }

  /** sep occurs somewhere in w. */
  ghost predicate Occurs(sep: string, w: string)
  {
    exists p :: SepAt(sep, w, p)
  }

  /** Split cuts at every occurrence of the separator: no piece contains
      it. */
  lemma SplitMaximal(s: string, sep: string)
    requires sep != []
    ensures forall i :: 0 <= i < |Split(s, sep)| ==> !Occurs(sep, Split(s, sep)[i])
  {
    SplitFromMaximal(s, sep, []);
  }

  /** No occurrence of sep in piece + s starts inside piece. */
  ghost predicate NoStartIn(piece: string, s: string, sep: string)
  {
    forall p :: 0 <= p < |piece| ==> !SepAt(sep, piece + s, p)
  }

  lemma {:induction false} SplitFromMaximal(s: string, sep: string, piece: string)
    requires sep != [] && NoStartIn(piece, s, sep)
    ensures forall i :: 0 <= i < |SplitFrom(s, sep, piece)| ==> !Occurs(sep, SplitFrom(s, sep, piece)[i])
    decreases |s|
  {
    if |s| < |sep| {
      forall p ensures !SepAt(sep, piece + s, p) {
        if 0 <= p < |piece| { assert !SepAt(sep, piece + s, p); }
      }
      assert SplitFrom(s, sep, piece) == [piece + s];
    } else if s[..|sep|] == sep {
      var rest := SplitFrom(s[|sep|..], sep, []);
      SplitFromMaximal(s[|sep|..], sep, []);
      forall p ensures !SepAt(sep, piece, p) {
        if 0 <= p && p + |sep| <= |piece| {
          assert (piece + s)[p..p + |sep|] == piece[p..p + |sep|];
          assert !SepAt(sep, piece + s, p);
        }
      }
      forall i | 0 <= i < |[piece] + rest| ensures !Occurs(sep, ([piece] + rest)[i]) {
        if i > 0 { assert ([piece] + rest)[i] == rest[i - 1]; }
      }
    } else {
      var piece' := piece + [s[0]];
      assert piece' + s[1..] == piece + s;
      forall p | 0 <= p < |piece'| ensures !SepAt(sep, piece' + s[1..], p) {
        if p == |piece| {
          assert (piece + s)[p..p + |sep|] == s[..|sep|];
        } else {
          assert !SepAt(sep, piece + s, p);
        }
      }
      SplitFromMaximal(s[1..], sep, piece');
    }
  }

  /** An occurrence of sep in s minus its first character is one in s, one
      position further on. */
  lemma SepAtTail(sep: string, s: string, q: int)
    requires s != [] && q >= 0
    ensures SepAt(sep, s[1..], q) <==> SepAt(sep, s, q + 1)
  {
    if q + |sep| <= |s| - 1 {
      assert s[1..][q..q + |sep|] == s[q + 1..q + 1 + |sep|];
    }
  }

  /** A text without the separator is a single piece. */
  lemma SplitNoOccurrence(s: string, sep: string)
    requires sep != [] && !Occurs(sep, s)
    ensures Split(s, sep) == [s]
  {
    SplitFromNoOccurrence(s, sep, []);
    assert [] + s == s;
  }

  lemma {:induction false} SplitFromNoOccurrence(s: string, sep: string, piece: string)
    requires sep != [] && !Occurs(sep, s)
    ensures SplitFrom(s, sep, piece) == [piece + s]
    decreases |s|
  {
    if |s| >= |sep| {
      assert !SepAt(sep, s, 0);
      forall q ensures !SepAt(sep, s[1..], q) {
        if q >= 0 { SepAtTail(sep, s, q); }
      }
      SplitFromNoOccurrence(s[1..], sep, piece + [s[0]]);
      assert piece + [s[0]] + s[1..] == piece + s;
    }
  }

  /** Split cuts at the leftmost occurrence of the separator and goes on
      splitting after it; with SplitNoOccurrence this fixes every piece,
      also for a separator that overlaps itself. */
  lemma SplitLeftmost(s: string, sep: string, p: nat)
    requires sep != [] && SepAt(sep, s, p)
    requires forall q :: 0 <= q < p ==> !SepAt(sep, s, q)
    ensures Split(s, sep) == [s[..p]] + Split(s[p + |sep|..], sep)
  {
    SplitFromLeftmost(s, sep, [], p);
    assert [] + s[..p] == s[..p];
  }

  lemma {:induction false} SplitFromLeftmost(s: string, sep: string, piece: string, p: nat)
    requires sep != [] && SepAt(sep, s, p)
    requires forall q :: 0 <= q < p ==> !SepAt(sep, s, q)
    ensures SplitFrom(s, sep, piece) == [piece + s[..p]] + SplitFrom(s[p + |sep|..], sep, [])
    decreases p
  {
    if p == 0 {
      assert s[..|sep|] == sep;
      assert piece + s[..0] == piece;
    } else {
      assert !SepAt(sep, s, 0);
      SepAtTail(sep, s, p - 1);
      forall q | 0 <= q < p - 1 ensures !SepAt(sep, s[1..], q) {
        SepAtTail(sep, s, q);
      }
      SplitFromLeftmost(s[1..], sep, piece + [s[0]], p - 1);
      assert piece + [s[0]] + s[1..][..p - 1] == piece + s[..p];
      assert s[1..][p - 1 + |sep|..] == s[p + |sep|..];
    }
  }

  /** Every piece of a split of a blank string is blank. */
  lemma {:induction false} SplitBlank(s: string, sep: string, piece: string)
    requires sep != [] && IsBlank(s) && IsBlank(piece)
    ensures forall i :: 0 <= i < |SplitFrom(s, sep, piece)| ==> IsBlank(SplitFrom(s, sep, piece)[i])
    decreases |s|
  {
    if |s| < |sep| {
    } else if s[..|sep|] == sep {
      SplitBlank(s[|sep|..], sep, []);
    } else {
      SplitBlank(s[1..], sep, piece + [s[0]]);
    }
  }

  /** `s.replace(x, y)` for one-character x and y: every x becomes y and
      every other character is kept. */
  function Replace(s: string, x: char, y: char): (r: string)
    ensures |r| == |s|
    ensures forall i :: 0 <= i < |s| ==> r[i] == (if s[i] == x then y else s[i])
  {
    if s == [] then [] else [if s[0] == x then y else s[0]] + Replace(s[1..], x, y)
  }
}
