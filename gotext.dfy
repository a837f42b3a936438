/** The pieces of Go's `strings`, `unicode` and `strconv` packages that the
    agent relies on. A Go string is modelled as its sequence of Unicode
    characters; `Utf8Len` recovers Go's byte length. */
module GoText {
  import Strings

  /** `unicode.IsSpace`: ASCII white space, U+0085, U+00A0 and the Unicode
      White_Space characters above Latin-1. */
  predicate IsSpace(c: char)
  {
    var n := c as int;
    (9 <= n <= 13) || n == 32 || n == 0x85 || n == 0xA0 || n == 0x1680
    || (0x2000 <= n <= 0x200A) || n == 0x2028 || n == 0x2029 || n == 0x202F
    || n == 0x205F || n == 0x3000
  }

  predicate NoSpace(s: string)
  {
    forall k :: 0 <= k < |s| ==> !IsSpace(s[k])
  }

  predicate AllSpace(s: string)
  {
    forall k :: 0 <= k < |s| ==> IsSpace(s[k])
  }

  /** A string with no white space at either end. */
  predicate Trimmed(s: string)
  {
    s == [] || (!IsSpace(s[0]) && !IsSpace(s[|s| - 1]))
  }

  /** `s` without its leading white space. */
  function TrimLeft(s: string): (r: string)
    ensures |r| <= |s| && r == s[|s| - |r|..]
    ensures forall k :: 0 <= k < |s| - |r| ==> IsSpace(s[k])
    ensures r == [] || !IsSpace(r[0])
  {
    if s != [] && IsSpace(s[0]) then TrimLeft(s[1..]) else s
  }

  /** `s` without its trailing white space. */
  function TrimRight(s: string): (r: string)
    ensures |r| <= |s| && r == s[..|r|]
    ensures forall k :: |r| <= k < |s| ==> IsSpace(s[k])
    ensures r == [] || !IsSpace(r[|r| - 1])
  {
    if s != [] && IsSpace(s[|s| - 1]) then
      TrimRight(s[..|s| - 1])
    else s
  }

  /** `strings.TrimSpace`. */
  function TrimSpace(s: string): (r: string)
    ensures Trimmed(r)
  {
    TrimRight(TrimLeft(s))
  }

  /** Trimming leaves a string alone exactly when it has no white space at
      either end. */
  lemma TrimSpaceFixed(s: string)
    ensures TrimSpace(s) == s <==> Trimmed(s)
  {
    if Trimmed(s) && s != [] {
      assert TrimLeft(s) == s;
      assert TrimRight(s) == s;
    }
  }

  lemma {:induction false} TrimLeftAppend(v: string, c: char)
    requires !IsSpace(c)
    ensures TrimLeft(v + [c]) == TrimLeft(v) + [c]
  {
    if v != [] && IsSpace(v[0]) {
      assert (v + [c])[1..] == v[1..] + [c];
      TrimLeftAppend(v[1..], c);
    }
  }

  lemma {:induction false} TrimLeftAppendSpace(v: string, c: char)
    requires IsSpace(c)
    ensures TrimLeft(v + [c]) == if TrimLeft(v) == [] then [] else TrimLeft(v) + [c]
  {
    if v == [] {
      assert TrimLeft(v + [c]) == [] by {
        assert v + [c] == [c] && [c][1..] == [];
      }
    } else if IsSpace(v[0]) {
      assert TrimLeft(v + [c]) == TrimLeft(v[1..] + [c]) by {
        assert (v + [c])[0] == v[0] && (v + [c])[1..] == v[1..] + [c];
      }
      TrimLeftAppendSpace(v[1..], c);
    } else {
      assert TrimLeft(v + [c]) == v + [c] by {
        assert (v + [c])[0] == v[0];
      }
    }
  }

  lemma TrimRightAppendSpace(t: string, c: char)
    requires IsSpace(c)
    ensures TrimRight(t + [c]) == TrimRight(t)
  {
    assert (t + [c])[..|t|] == t;
  }

  /** Reading back a version marker: the text written is the version followed
      by a newline, and the text read is trimmed, so what comes back is the
      version with its surrounding white space removed. */
  lemma MarkerReadBack(v: string)
    ensures TrimSpace(v + "\n") == TrimSpace(v)
  {
    TrimLeftAppendSpace(v, '\n');
    TrimRightAppendSpace(TrimLeft(v), '\n');
  }

  /** A version without surrounding white space survives a marker round trip. */
  lemma MarkerRoundTrip(v: string)
    requires Trimmed(v)
    ensures TrimSpace(v + "\n") == v
  {
    MarkerReadBack(v);
    TrimSpaceFixed(v);
  }

  /** The longest prefix of `s` without white space. */
  function Word(s: string): (w: string)
    ensures |w| <= |s| && w == s[..|w|]
    ensures forall k :: 0 <= k < |w| ==> !IsSpace(s[k])
    ensures |w| < |s| ==> IsSpace(s[|w|])
  {
    if s == [] || IsSpace(s[0]) then [] else [s[0]] + Word(s[1..])
  }

  /** `strings.Fields`: the maximal runs of non-white-space characters. */
  function Fields(s: string): seq<string>
    decreases |s|
  {
    var t := TrimLeft(s);
    if t == [] then [] else
    var w := Word(t);
    [w] + Fields(t[|w|..])
  }

  /** Only white space trims away to nothing. */
  lemma {:induction false} TrimLeftEmpty(s: string)
    ensures TrimLeft(s) == [] <==> AllSpace(s)
  {
    if s != [] && IsSpace(s[0]) {
      TrimLeftEmpty(s[1..]);
      assert AllSpace(s) <==> AllSpace(s[1..]) by {
        assert forall k :: 1 <= k < |s| ==> s[k] == s[1..][k - 1];
      }
    }
  }

  /** A command line has no fields exactly when it is empty or all white space. */
  lemma FieldsEmpty(s: string)
    ensures Fields(s) == [] <==> AllSpace(s)
  {
    TrimLeftEmpty(s);
  }

  /** `s` with every white-space character dropped. */
  function NonSpace(s: string): string
  {
    if s == [] then [] else (if IsSpace(s[0]) then [] else [s[0]]) + NonSpace(s[1..])
  }

  /** Concatenation of strings. */
  function Concat(ss: seq<string>): string
  {
    if ss == [] then [] else ss[0] + Concat(ss[1..])
  }

  /** Leading white space contributes nothing to `NonSpace`. */
  lemma {:induction false} NonSpaceTrimLeft(s: string)
    ensures NonSpace(TrimLeft(s)) == NonSpace(s)
  {
    if s != [] && IsSpace(s[0]) {
      NonSpaceTrimLeft(s[1..]);
    }
  }

  /** A string splits into its first word and what follows it. */
  lemma {:induction false} NonSpaceWord(t: string)
    ensures NonSpace(t) == Word(t) + NonSpace(t[|Word(t)|..])
  {
    if t != [] && !IsSpace(t[0]) {
      NonSpaceWord(t[1..]);
      assert t[1..][|Word(t[1..])|..] == t[|Word(t)|..];
    }
  }

  lemma ConcatCons(w: string, fs: seq<string>)
    ensures Concat([w] + fs) == w + Concat(fs)
  {
    assert ([w] + fs)[1..] == fs;
  }

  /** The fields of a command line hold exactly its non-white-space characters,
      in order: splitting loses nothing but the separators. */
  lemma {:induction false} FieldsCover(s: string)
    ensures Concat(Fields(s)) == NonSpace(s)
    decreases |s|
  {
    var t := TrimLeft(s);
    NonSpaceTrimLeft(s);
    if t != [] {
      var w := Word(t);
      var rest := t[|w|..];
      NonSpaceWord(t);
      FieldsCover(rest);
      assert Fields(s) == [w] + Fields(rest);
      ConcatCons(w, Fields(rest));
    } else {
      assert Fields(s) == [];
    }
  }

  /** Non-empty strings without white space. */
  predicate AllWords(fs: seq<string>)
  {
    forall k :: 0 <= k < |fs| ==> fs[k] != [] && NoSpace(fs[k])
  }

  /** A word without white space is its own first word. */
  lemma WordAll(w: string)
    requires NoSpace(w)
    ensures Word(w) == w
  {
  }

  /** The first word ends at the first white space. */
  lemma WordStops(w: string, t: string)
    requires w != [] && NoSpace(w) && t != [] && IsSpace(t[0])
    ensures Word(w + t) == w
  {
    var s := w + t;
    assert s[|w|] == t[0];
    assert forall k :: 0 <= k < |w| ==> s[k] == w[k];
    assert |Word(s)| == |w|;
    assert s[..|w|] == w;
  }

  /** Leading white space does not change the fields. */
  lemma FieldsLeadingSpace(c: char, r: string)
    requires IsSpace(c)
    ensures Fields([c] + r) == Fields(r)
  {
    assert ([c] + r)[0] == c && ([c] + r)[1..] == r;
    assert TrimLeft([c] + r) == TrimLeft(r);
  }

  /** A single word is its only field. */
  lemma FieldsOneWord(w: string)
    requires w != [] && NoSpace(w)
    ensures Fields(w) == [w]
  {
    assert TrimLeft(w) == w;
    WordAll(w);
    assert w[|w|..] == [];
    assert Fields([]) == [];
  }

  /** A word followed by a blank is the first field; the fields of the rest
      follow. */
  lemma FieldsConsWord(w: string, rest: string)
    requires w != [] && NoSpace(w)
    ensures Fields(w + [' '] + rest) == [w] + Fields(rest)
  {
    var s := w + [' '] + rest;
    assert s[0] == w[0];
    assert TrimLeft(s) == s;
    WordStops(w, [' '] + rest);
    assert s == w + ([' '] + rest);
    assert s[|w|..] == [' '] + rest;
    FieldsLeadingSpace(' ', rest);
  }

  /** Words without white space, joined by single blanks, split back into
      exactly those words: the fields break at every run of white space and
      nowhere else. */
  lemma {:induction false} FieldsOfWords(ws: seq<string>)
    requires AllWords(ws)
    ensures Fields(Strings.Join(ws, ' ')) == ws
  {
    if ws == [] {
      assert Fields("") == [];
    } else if |ws| == 1 {
      FieldsOneWord(ws[0]);
    } else {
      var rest := Strings.Join(ws[1..], ' ');
      assert Strings.Join(ws, ' ') == ws[0] + [' '] + rest;
      assert Fields(rest) == ws[1..] by {
        assert AllWords(ws[1..]) by {
          assert forall k :: 0 <= k < |ws| - 1 ==> ws[1..][k] == ws[k + 1];
        }
        FieldsOfWords(ws[1..]);
      }
      FieldsConsWord(ws[0], rest);
      assert [ws[0]] + ws[1..] == ws;
    }
  }

  lemma AllWordsCons(w: string, fs: seq<string>)
    requires w != [] && NoSpace(w) && AllWords(fs)
    ensures AllWords([w] + fs)
  {
    assert forall k :: 1 <= k <= |fs| ==> ([w] + fs)[k] == fs[k - 1];
  }

  /** Every field is a non-empty run of non-white-space characters. */
  lemma {:induction false} FieldsAreWords(s: string)
    ensures AllWords(Fields(s))
    decreases |s|
  {
    var t := TrimLeft(s);
    if t != [] {
      var w := Word(t);
      FieldsAreWords(t[|w|..]);
      assert NoSpace(w) by {
        assert forall k :: 0 <= k < |w| ==> w[k] == t[k];
      }
      AllWordsCons(w, Fields(t[|w|..]));
      assert Fields(s) == [w] + Fields(t[|w|..]);
    } else {
      assert Fields(s) == [];
    }
  }

  function AsciiLower(c: char): char
  {
    if 'A' <= c <= 'Z' then (c as int + 32) as char else c
  }

  /** `strings.EqualFold`, restricted to ASCII case folding. */
  predicate EqualFold(a: string, b: string)
  {
    |a| == |b| && forall k :: 0 <= k < |a| ==> AsciiLower(a[k]) == AsciiLower(b[k])
  }

  /** Bytes taken by `c` in UTF-8. */
  function RuneLen(c: char): nat
  {
    var n := c as int;
    if n < 0x80 then 1 else if n < 0x800 then 2 else if n < 0x10000 then 3 else 4
  }

  /** Go's `len` of a string: its length in UTF-8 bytes. */
  function Utf8Len(s: string): (n: nat)
    ensures |s| <= n <= 4 * |s|
    ensures (forall k :: 0 <= k < |s| ==> s[k] as int < 0x80) ==> n == |s|
  {
    if s == [] then 0 else RuneLen(s[0]) + Utf8Len(s[1..])
  }

  predicate IsHexDigit(c: char)
  {
    '0' <= c <= '9' || 'a' <= c <= 'f' || 'A' <= c <= 'F'
  }

  /** The regular expression `^[a-fA-F0-9]{64}$`. */
  predicate IsHex64(s: string)
  {
    |s| == 64 && forall k :: 0 <= k < |s| ==> IsHexDigit(s[k])
  }

  predicate IsDigit(c: char)
  {
    '0' <= c <= '9'
  }

  /** Decimal digits of `n`. */
  function Digits(n: nat): (r: string)
    ensures r != [] && forall k :: 0 <= k < |r| ==> IsDigit(r[k])
  {
    if n < 10 then [(48 + n) as char] else Digits(n / 10) + [(48 + n % 10) as char]
  }

  /** `fmt.Sprintf("%d", n)`. */
  function Itoa(n: int): (r: string)
    ensures r != [] && forall k :: 0 <= k < |r| ==> r[k] == '-' || IsDigit(r[k])
  {
    if n < 0 then "-" + Digits(-n) else Digits(n)
  }
}
