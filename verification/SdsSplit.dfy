/** sdssplitlen and sdsjoinsds. */
module SdsSplit {
  import opened Text
  import opened SdsString

  predicate MatchAt(s: string, k: int, sep: string) {
    0 <= k <= k + |sep| <= |s| && s[k..k + |sep|] == sep
  }

  lemma MatchOne(s: string, c: char)
    ensures forall k :: MatchAt(s, k, [c]) <==> 0 <= k < |s| && s[k] == c
  {
    forall k | 0 <= k < |s|
      ensures MatchAt(s, k, [c]) <==> s[k] == c
    {
      assert s[k..k + 1] == [s[k]];
    }
  }

  /** The first place at or after `from` where sep occurs. */
  function FirstFrom(s: string, sep: string, from: nat): (r: Option<nat>)
    ensures r.Some? ==> r.value >= from && MatchAt(s, r.value, sep) && forall k :: from <= k < r.value ==> !MatchAt(s, k, sep)
    ensures r.None? ==> forall k :: from <= k ==> !MatchAt(s, k, sep)
    decreases |s| - from
  {
    if from + |sep| > |s| then None
    else if MatchAt(s, from, sep) then Some(from)
    else FirstFrom(s, sep, from + 1)
  }

  lemma FirstIs(s: string, sep: string, from: nat, k: nat)
    requires from <= k && MatchAt(s, k, sep) && forall i :: from <= i < k ==> !MatchAt(s, i, sep)
    ensures FirstFrom(s, sep, from) == Some(k)
  {
    var r := FirstFrom(s, sep, from);
    assert r.Some?;
    assert !(r.value < k) && !(k < r.value);
  }

  /** Cut at the first separator, then split what follows it. */
  function SplitFrom(s: string, sep: string, from: nat): seq<string>
    requires sep != "" && from <= |s|
    decreases |s| - from
  {
    match FirstFrom(s, sep, from)
    case None => [s[from..]]
    case Some(k) => [s[from..k]] + SplitFrom(s, sep, k + |sep|)
  }

  /** The definition as a fact, for proofs that hide the recursion. */
  lemma SplitUnfold(s: string, sep: string, from: nat)
    requires sep != "" && from <= |s|
    ensures SplitFrom(s, sep, from) ==
            match FirstFrom(s, sep, from)
            case None => [s[from..]]
            case Some(k) => [s[from..k]] + SplitFrom(s, sep, k + |sep|)
  {}

  /** An empty input has no tokens at all. */
  function Tokens(s: string, sep: string): seq<string>
    requires sep != ""
  {
    if s == "" then [] else SplitFrom(s, sep, 0)
  }

  predicate FreeOf(s: string, sep: string) {
    forall k :: 0 <= k <= |s| ==> !MatchAt(s, k, sep)
  }

  lemma {:induction false} JoinSplit(s: string, sep: string, from: nat)
    requires sep != "" && from <= |s|
    ensures |SplitFrom(s, sep, from)| >= 1 && Join(SplitFrom(s, sep, from), sep) == s[from..]
    decreases |s| - from
  {
    hide SplitFrom, FirstFrom;
    SplitUnfold(s, sep, from);
    match FirstFrom(s, sep, from)
    case None =>
    case Some(k) =>
      var next := k + |sep|;
      JoinSplit(s, sep, next);
      JoinCons(s[from..k], SplitFrom(s, sep, next), sep);
      hide Join;
      assert s[k..next] == sep;
      assert s[from..] == s[from..k] + s[k..next] + s[next..];
  }

  /** Joining the tokens with the separator gives the string back. */
  lemma {:induction false} JoinTokens(s: string, sep: string)
    requires sep != ""
    ensures Join(Tokens(s, sep), sep) == s
  {
    JoinSplit(s, sep, 0);
  }

  /** No token holds the separator. */
  lemma {:induction false} TokensFreeOfSep(s: string, sep: string, from: nat, i: nat)
    requires sep != "" && from <= |s| && i < |SplitFrom(s, sep, from)|
    ensures FreeOf(SplitFrom(s, sep, from)[i], sep)
    decreases |s| - from
  {
    hide SplitFrom, FirstFrom;
    SplitUnfold(s, sep, from);
    var end := match FirstFrom(s, sep, from) case None => |s| case Some(k) => k;
    if i == 0 {
      forall j | 0 <= j <= end - from
        ensures !MatchAt(s[from..end], j, sep)
      {
        NoMatchInside(s, from, end, j, sep);
      }
      assert SplitFrom(s, sep, from)[0] == s[from..end];
    } else {
      TokensFreeOfSep(s, sep, end + |sep|, i - 1);
    }
  }

  lemma NoMatchInside(s: string, from: nat, end: nat, j: nat, sep: string)
    requires from <= end <= |s| && j <= end - from && sep != ""
    requires forall k :: from <= k < end ==> !MatchAt(s, k, sep)
    ensures !MatchAt(s[from..end], j, sep)
  {
    if MatchAt(s[from..end], j, sep) {
      SubSlice(s, from, end, j, j + |sep|);
      assert MatchAt(s, from + j, sep);
      assert false;
    }
  }

  /** Each token ends where the separator occurs first: with the separator behind it, the
      token holds it nowhere earlier. With the two laws above this leaves one way to split. */
  lemma {:induction false} TokensEndFirst(s: string, sep: string, from: nat, i: nat)
    requires sep != "" && from <= |s| && i < |SplitFrom(s, sep, from)| - 1
    ensures var token := SplitFrom(s, sep, from)[i]; forall k :: k < |token| ==> !MatchAt(token + sep, k, sep)
    decreases |s| - from
  {
    hide SplitFrom, FirstFrom;
    SplitUnfold(s, sep, from);
    var end := FirstFrom(s, sep, from).value;
    if i == 0 {
      var token := s[from..end];
      assert token + sep == s[from..end + |sep|] by {
        assert s[end..end + |sep|] == sep;
        assert s[from..end + |sep|] == s[from..end] + s[end..end + |sep|];
      }
      forall k | 0 <= k < |token|
        ensures !MatchAt(token + sep, k, sep)
      {
        SubSlice(s, from, end + |sep|, k, k + |sep|);
        assert !MatchAt(s, from + k, sep);
      }
      assert SplitFrom(s, sep, from)[0] == token;
    } else {
      TokensEndFirst(s, sep, end + |sep|, i - 1);
    }
  }

  /** Only the empty text has no tokens. */
  lemma NoTokens(s: string, sep: string)
    requires sep != ""
    ensures Tokens(s, sep) == [] <==> s == ""
  {
    JoinTokens(s, sep);
  }

  lemma CutWord(before: string, w: string, after: string, c: char)
    requires c !in w && (after == "" || after[0] == c)
    ensures var s := before + w + after;
            SplitFrom(s, [c], |before|) ==
            if after == "" then [w] else [w] + SplitFrom(s, [c], |before| + |w| + 1)
  {
    hide SplitFrom, FirstFrom;
    var s := before + w + after;
    var k := |before| + |w|;
    SplitUnfold(s, [c], |before|);
    MatchOne(s, c);
    assert s[|before|..k] == w;
    forall m | |before| <= m < k
      ensures !MatchAt(s, m, [c])
    {
      assert s[m] == w[m - |before|];
    }
    if after == "" {
      assert s[|before|..] == w;
      assert FirstFrom(s, [c], |before|).None?;
    } else {
      assert s[k] == c;
      FirstIs(s, [c], |before|, k);
    }
  }

  /** For a one-byte separator the splitter also inverts the joiner. */
  lemma {:induction false} SplitJoin(before: string, words: seq<string>, c: char)
    requires words != [] && forall i :: 0 <= i < |words| ==> c !in words[i]
    ensures SplitFrom(before + Join(words, [c]), [c], |before|) == words
    decreases |words|
  {
    hide SplitFrom, FirstFrom;
    var w := words[0];
    if |words| == 1 {
      CutWord(before, w, "", c);
      assert before + w + "" == before + w;
    } else {
      var tail := Join(words[1..], [c]);
      CutWord(before, w, [c] + tail, c);
      assert before + Join(words, [c]) == before + w + ([c] + tail) == before + w + [c] + tail;
      SplitJoin(before + w + [c], words[1..], c);
    }
  }

  /** The tokens found so far and the part still to be split make up the whole split. */
  ghost predicate Progress(s: string, sep: string, found: seq<string>, start: nat) {
    sep != "" && start <= |s| && SplitFrom(s, sep, 0) == found + SplitFrom(s, sep, start)
  }

  lemma ProgressStep(found: seq<string>, s: string, sep: string, start: nat, j: nat)
    requires Progress(s, sep, found, start)
    requires start <= j && MatchAt(s, j, sep) && forall k :: start <= k < j ==> !MatchAt(s, k, sep)
    ensures Progress(s, sep, found + [s[start..j]], j + |sep|)
  {
    FirstIs(s, sep, start, j);
    var next := SplitFrom(s, sep, j + |sep|);
    assert found + ([s[start..j]] + next) == (found + [s[start..j]]) + next;
  }

  lemma ProgressEnd(found: seq<string>, s: string, sep: string, start: nat)
    requires Progress(s, sep, found, start) && forall k :: start <= k ==> !MatchAt(s, k, sep)
    ensures SplitFrom(s, sep, 0) == found + [s[start..]]
  {
    assert FirstFrom(s, sep, start).None?;
  }

  /** sdssplitlen; None is the NULL returned for an empty separator. */
  method SplitLen(s: string, sep: string) returns (r: Option<seq<string>>)
    ensures r == if sep == "" then None else Some(Tokens(s, sep))
  {
    hide SplitFrom, FirstFrom;
    var elements, slots, start := 0, 5, 0;
    if |sep| < 1 {
      return None;
    }
    var tokens := new string[slots](_ => "");
    if |s| == 0 {
      return Some([]);
    }
    var j := 0;
    ghost var found: seq<string> := [];
    while j < |s| - (|sep| - 1)
      invariant 0 <= start <= |s| && start <= j && 0 <= elements < slots == tokens.Length
      invariant fresh(tokens)
      invariant tokens[..elements] == found && Progress(s, sep, found, start)
      invariant forall k :: start <= k < j ==> !MatchAt(s, k, sep)
      decreases |s| - j
    {
      if slots < elements + 2 {
        slots := slots * 2;
        tokens := Enlarge(tokens, elements, slots);
      }
      if s[j..j + |sep|] == sep {
        ProgressStep(found, s, sep, start, j);
        found := found + [s[start..j]];
        Store(tokens, elements, s[start..j]);
        elements := elements + 1;
        start := j + |sep|;
        j := j + |sep| - 1;
      }
      j := j + 1;
    }
    ProgressEnd(found, s, sep, start);
    Store(tokens, elements, s[start..]);
    elements := elements + 1;
    r := Some(tokens[..elements]);
  }

  /** The s_realloc of the token slots. */
  method Enlarge(tokens: array<string>, elements: nat, slots: nat) returns (newtokens: array<string>)
    requires elements <= tokens.Length <= slots
    ensures fresh(newtokens) && newtokens.Length == slots
    ensures newtokens[..elements] == tokens[..elements]
  {
    newtokens := new string[slots](_ => "");
    forall i | 0 <= i < elements { newtokens[i] := tokens[i]; }
  }

  /** tokens[elements] = token; the slot must exist. */
  method Store(tokens: array<string>, elements: nat, token: string)
    requires elements < tokens.Length
    modifies tokens
    ensures tokens[..elements + 1] == old(tokens[..elements]) + [token]
  {
    tokens[elements] := token;
  }

  lemma {:induction false} JoinAppend(a: seq<string>, b: seq<string>, sep: string)
    requires a != [] && b != []
    ensures Join(a + b, sep) == Join(a, sep) + sep + Join(b, sep)
  {
    assert (a + b)[1..] == a[1..] + b;
    if |a| == 1 {
      assert a + b == [a[0]] + b;
    } else {
      JoinAppend(a[1..], b, sep);
      assert Join(a + b, sep) == a[0] + sep + Join(a[1..] + b, sep);
    }
  }

  /** What sdsjoinsds has built after j words: a separator follows every word but the last. */
  function Joined(argv: seq<string>, j: nat, sep: string): string
    requires j <= |argv|
  {
    Join(argv[..j], sep) + if 0 < j < |argv| then sep else ""
  }

  lemma JoinedStep(argv: seq<string>, j: nat, sep: string)
    requires j < |argv|
    ensures Joined(argv, j + 1, sep) == Joined(argv, j, sep) + argv[j] + if j + 1 < |argv| then sep else ""
  {
    assert argv[..j + 1] == argv[..j] + [argv[j]];
    JoinSnoc(argv[..j], sep, argv[j]);
  }

  lemma JoinedFits(argv: seq<string>, j: nat, sep: string)
    requires j <= |argv|
    ensures |Joined(argv, j, sep)| <= |Join(argv, sep)|
  {
    if 0 < j < |argv| {
      assert argv == argv[..j] + argv[j..];
      JoinAppend(argv[..j], argv[j..], sep);
    } else if j == |argv| {
      assert argv[..j] == argv;
    }
  }

  /** sdsjoinsds */
  method JoinSds(argv: seq<string>, sep: string) returns (join: Sds)
    requires Allocatable(|Join(argv, sep)|)
    ensures fresh(join) && fresh(join.data) && join.Valid()
    ensures join.Content() == Join(argv, sep)
  {
    join := new Sds.NewLen("");
    for j := 0 to |argv|
      invariant fresh(join) && fresh(join.data) && join.Valid()
      invariant join.Content() == Joined(argv, j, sep)
    {
      JoinedStep(argv, j, sep);
      JoinedFits(argv, j + 1, sep);
      join.CatLen(argv[j]);
      if j != |argv| - 1 {
        join.CatLen(sep);
      }
    }
    assert argv[..|argv|] == argv;
  }
}
