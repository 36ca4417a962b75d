/** Byte strings. A C byte is a `char`; the members that depend on its numeric
    value (hex escapes, 8-bit masks) say `IsByte` or use `bv8` explicitly. */
module Text {
  datatype Option<+T> = None | Some(value: T)

  const CRLF := "\r\n"
  const INT_MAX := 0x7fff_ffff
  const NUL := '\0'

  /** isspace() of the C locale: space, \t, \n, \v, \f, \r. */
  predicate IsSpace(c: char) {
    c == ' ' || '\t' <= c <= '\r'
  }

  /** isprint() of the C locale. */
  predicate IsPrint(c: char) {
    ' ' <= c <= '~'
  }

  predicate IsDigit(c: char) {
    '0' <= c <= '9'
  }

  predicate IsByte(c: char) {
    c as int < 256
  }

  /** Joining with a separator; no separator after the last word. */
  function Join(words: seq<string>, sep: string): string {
    if |words| == 0 then ""
    else if |words| == 1 then words[0]
    else words[0] + sep + Join(words[1..], sep)
  }

  lemma {:induction false} JoinHasNoNul(texts: seq<string>)
    requires forall i :: 0 <= i < |texts| ==> NUL !in texts[i]
    ensures NUL !in Join(texts, " ")
  {
    if |texts| > 1 {
      JoinHasNoNul(texts[1..]);
    }
  }

  lemma JoinCons(w: string, words: seq<string>, sep: string)
    requires words != []
    ensures Join([w] + words, sep) == w + sep + Join(words, sep)
  {
    assert ([w] + words)[1..] == words;
  }

  lemma JoinSnoc(words: seq<string>, sep: string, w: string)
    ensures Join(words + [w], sep) == if words == [] then w else Join(words, sep) + sep + w
  {
    if |words| > 1 {
      JoinSnoc(words[1..], sep, w);
      assert (words + [w])[1..] == words[1..] + [w];
    } else if |words| == 1 {
      assert (words + [w])[1..] == [w];
    }
  }

  lemma Assoc3<T>(a: seq<T>, b: seq<T>, c: seq<T>)
    ensures a + b + c == a + (b + c)
  {}

  lemma Assoc4<T>(a: seq<T>, b: seq<T>, c: seq<T>, d: seq<T>)
    ensures a + b + c + d == a + (b + (c + d))
  {}

  lemma Assoc6<T>(a: seq<T>, b: seq<T>, c: seq<T>, d: seq<T>, e: seq<T>, f: seq<T>)
    ensures a + b + c + d + e + f == a + (b + (c + (d + (e + f))))
  {}

  /** A text cut around the byte at k. */
  lemma CutApart(s: string, from: nat, k: nat, c: char)
    requires from <= k < |s| && s[k] == c
    ensures s[from..] == s[from..k] + ([c] + s[k + 1..])
  {}

  /** Two cuts in a row, put together. */
  lemma Glue(whole: string, first: string, x: string, second: string, y: string, c: char)
    requires whole == first + ([c] + x) && x == second + ([c] + y)
    ensures whole == first + ([c] + (second + ([c] + y)))
  {}

  lemma SubSlice<T>(s: seq<T>, a: nat, b: nat, c: nat, d: nat)
    requires a <= b <= |s| && c <= d <= b - a
    ensures s[a..b][c..d] == s[a + c..a + d]
  {
    var x, y := s[a..b][c..d], s[a + c..a + d];
    forall i | 0 <= i < d - c
      ensures x[i] == y[i]
    {
      assert s[a..b][c + i] == s[a + c + i];
    }
  }

  function Reversed<T>(s: seq<T>): (r: seq<T>)
    ensures |r| == |s|
    ensures forall i :: 0 <= i < |s| ==> r[i] == s[|s| - 1 - i]
  {
    seq(|s|, i requires 0 <= i < |s| => s[|s| - 1 - i])
  }
}
