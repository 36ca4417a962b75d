/** sdscatrepr and sdssplitargs: the quoting printer and the tokenizer. */
module SdsQuote {
  import opened Text
  import opened SdsString

  const BEL := 7 as char
  const BS := 8 as char

  // ------------------------------------------------------------------------
  // The printer.

  function HexDigit(n: nat): (c: char)
    requires n < 16
    ensures IsHex(c) && HexValue(c) == n
  {
    if n < 10 then ('0' as int + n) as char else ('a' as int + (n - 10)) as char
  }

  /** is_hex_digit */
  predicate IsHex(c: char) {
    '0' <= c <= '9' || 'a' <= c <= 'f' || 'A' <= c <= 'F'
  }

  /** hex_digit_to_int */
  function HexValue(c: char): nat {
    if '0' <= c <= '9' then c as int - '0' as int
    else if 'a' <= c <= 'f' then c as int - 'a' as int + 10
    else if 'A' <= c <= 'F' then c as int - 'A' as int + 10
    else 0
  }

  /** "\\x%02x" */
  function HexEscape(c: char): string
    requires IsByte(c)
  {
    ['\\', 'x', HexDigit(c as int / 16), HexDigit(c as int % 16)]
  }

  function Escape(c: char): string
    requires IsByte(c)
  {
    if c == '\\' || c == '"' then ['\\', c]
    else if c == '\n' then "\\n"
    else if c == '\r' then "\\r"
    else if c == '\t' then "\\t"
    else if c == BEL then "\\a"
    else if c == BS then "\\b"
    else if IsPrint(c) then [c]
    else HexEscape(c)
  }

  predicate Bytes(s: string) {
    forall i :: 0 <= i < |s| ==> IsByte(s[i])
  }

  function Escapes(s: string): string
    requires Bytes(s)
  {
    if s == "" then "" else Escape(s[0]) + Escapes(s[1..])
  }

  function Repr(s: string): string
    requires Bytes(s)
  {
    "\"" + Escapes(s) + "\""
  }

  lemma {:induction false} EscapesSplit(s: string, j: nat)
    requires Bytes(s) && j <= |s|
    ensures Escapes(s) == Escapes(s[..j]) + Escapes(s[j..])
  {
    hide Escape;
    if j > 0 {
      EscapesSplit(s[1..], j - 1);
      assert s[..j][1..] == s[1..][..j - 1];
      assert s[j..] == s[1..][j - 1..];
      Assoc3(Escape(s[0]), Escapes(s[1..][..j - 1]), Escapes(s[j..]));
    } else {
      assert s[0..] == s;
    }
  }

  lemma EscapesNext(s: string, j: nat)
    requires Bytes(s) && j < |s|
    ensures Escapes(s[..j + 1]) == Escapes(s[..j]) + Escape(s[j])
    ensures |Escapes(s[..j])| + |Escape(s[j])| <= |Escapes(s)|
  {
    EscapesSplit(s[..j + 1], j);
    assert s[..j + 1][..j] == s[..j] && s[..j + 1][j..] == [s[j]];
    assert Escapes([s[j]]) == Escape(s[j]) + Escapes([s[j]][1..]) == Escape(s[j]);
    EscapesSplit(s, j + 1);
  }

  /** sdscatrepr */
  method CatRepr(s: Sds, p: string)
    requires Bytes(p) && s.Valid() && Allocatable(s.Len() + |Repr(p)|)
    modifies s, s.data
    ensures s.Valid() && (s.data == old(s.data) || fresh(s.data))
    ensures s.Content() == old(s.Content()) + Repr(p)
  {
    s.CatLen("\"");
    ghost var head := s.Content();
    assert |Repr(p)| == |Escapes(p)| + 2 && |head| == s.Len() == old(s.Len()) + 1;
    for j := 0 to |p|
      invariant s.Valid() && (s.data == old(s.data) || fresh(s.data))
      invariant s.Content() == head + Escapes(p[..j])
      invariant |Escapes(p[..j])| <= |Escapes(p)|
    {
      hide Escape, Escapes, Sds.Valid;
      EscapesNext(p, j);
      s.ContentLength();
      assert s.Len() + |Escape(p[j])| <= old(s.Len()) + |Repr(p)|;
      CatEscape(s, p[j]);
      Assoc3(head, Escapes(p[..j]), Escape(p[j]));
    }
    assert p[..|p|] == p;
    s.CatLen("\"");
    Assoc4(old(s.Content()), "\"", Escapes(p), "\"");
    Assoc3("\"", Escapes(p), "\"");
  }

  /** The switch of sdscatrepr. */
  method CatEscape(s: Sds, c: char)
    requires IsByte(c) && s.Valid() && Allocatable(s.Len() + |Escape(c)|)
    modifies s, s.data
    ensures s.Valid() && (s.data == old(s.data) || fresh(s.data))
    ensures s.Content() == old(s.Content()) + Escape(c)
  {
    match c {
      case '\\' => s.CatLen("\\\\");
      case '"' => s.CatLen("\\\"");
      case '\n' => s.CatLen("\\n");
      case '\r' => s.CatLen("\\r");
      case '\t' => s.CatLen("\\t");
      case _ =>
        if c == BEL {
          s.CatLen("\\a");
        } else if c == BS {
          s.CatLen("\\b");
        } else if IsPrint(c) {
          s.CatLen([c]);
        } else {
          s.CatLen(HexEscape(c));
        }
    }
  }

  // ------------------------------------------------------------------------
  // The tokenizer as a function of the text still to be read.

  datatype Mode = Bare | Double | Single

  function Unescape(c: char): char {
    match c
    case 'n' => '\n'
    case 'r' => '\r'
    case 't' => '\t'
    case 'b' => BS
    case 'a' => BEL
    case _ => c
  }

  predicate IsHexEscape(s: string) {
    |s| >= 4 && s[0] == '\\' && s[1] == 'x' && IsHex(s[2]) && IsHex(s[3])
  }

  /** A closing quote must be followed by a space or by nothing. */
  predicate Closes(s: string) {
    |s| == 1 || (|s| > 1 && IsSpace(s[1]))
  }

  predicate EndsBare(c: char) {
    c == ' ' || c == '\n' || c == '\r' || c == '\t'
  }

  /** One token: its value and the text after it; None when the quoting is wrong. */
  function Token(s: string, mode: Mode, cur: string): (r: Option<(string, string)>)
    ensures r.Some? ==> |r.value.1| <= |s|
    ensures r.Some? && (s != "" || mode != Bare) ==> |r.value.1| < |s|
    decreases |s|
  {
    if s == "" then (if mode == Bare then Some((cur, s)) else None)
    else
      match mode
      case Bare =>
        if EndsBare(s[0]) then Some((cur, s[1..]))
        else if s[0] == '"' then Token(s[1..], Double, cur)
        else if s[0] == '\'' then Token(s[1..], Single, cur)
        else Token(s[1..], Bare, cur + [s[0]])
      case Double =>
        if IsHexEscape(s) then Token(s[4..], Double, cur + [(HexValue(s[2]) * 16 + HexValue(s[3])) as char])
        else if s[0] == '\\' && |s| > 1 then Token(s[2..], Double, cur + [Unescape(s[1])])
        else if s[0] == '"' then (if Closes(s) then Some((cur, s[1..])) else None)
        else Token(s[1..], Double, cur + [s[0]])
      case Single =>
        if s[0] == '\\' && |s| > 1 && s[1] == '\'' then Token(s[2..], Single, cur + ['\''])
        else if s[0] == '\'' then (if Closes(s) then Some((cur, s[1..])) else None)
        else Token(s[1..], Single, cur + [s[0]])
  }

  function SkipBlanks(s: string): (r: string)
    ensures |r| <= |s|
    ensures r != "" ==> !IsSpace(r[0])
  {
    if s != "" && IsSpace(s[0]) then SkipBlanks(s[1..]) else s
  }

  function Args(s: string): Option<seq<string>>
    decreases |s|
  {
    var t := SkipBlanks(s);
    if t == "" then Some([])
    else
      match Token(t, Bare, "")
      case None => None
      case Some((token, rest)) =>
        match Args(rest)
        case None => None
        case Some(tokens) => Some([token] + tokens)
  }

  // ------------------------------------------------------------------------
  // sdssplitargs. The text comes with its terminator; that no index leaves `mem` is
  // the proof that the tokenizer never reads past it.

  predicate CString(mem: string) {
    |mem| > 0 && mem[|mem| - 1] == NUL && NUL !in mem[..|mem| - 1]
  }

  /** The text from p up to the terminator. */
  function From(mem: string, p: nat): string
    requires |mem| > 0 && p < |mem|
  {
    mem[p..|mem| - 1]
  }

  lemma FromFacts(mem: string, p: nat)
    requires CString(mem) && p < |mem|
    ensures mem[p] == NUL <==> p == |mem| - 1
    ensures From(mem, p) == "" <==> p == |mem| - 1
    ensures forall i :: 0 <= i < |From(mem, p)| ==> From(mem, p)[i] == mem[p + i] && mem[p + i] != NUL
    ensures forall k :: 0 <= k <= |From(mem, p)| ==> From(mem, p)[k..] == From(mem, p + k)
  {
    if p < |mem| - 1 {
      assert mem[..|mem| - 1][p] == mem[p];
    }
    forall i | 0 <= i < |From(mem, p)|
      ensures From(mem, p)[i] == mem[p + i] && mem[p + i] != NUL
    {
      assert mem[..|mem| - 1][p + i] == mem[p + i];
    }
  }

  /** "skip blanks" */
  method SkipLoop(mem: string, p0: nat) returns (p: nat)
    requires CString(mem) && p0 < |mem|
    ensures p0 <= p < |mem| && From(mem, p) == SkipBlanks(From(mem, p0))
  {
    p := p0;
    FromFacts(mem, p);
    while mem[p] != NUL && IsSpace(mem[p])
      invariant p0 <= p < |mem|
      invariant SkipBlanks(From(mem, p)) == SkipBlanks(From(mem, p0))
      decreases |mem| - p
    {
      FromFacts(mem, p);
      p := p + 1;
    }
    FromFacts(mem, p);
  }

  /** One turn of the token loop in double quotes: 'p' after the closing 'p++'. */
  method DoubleStep(mem: string, p0: nat, cur0: string) returns (err: bool, done: bool, p: nat, cur: string)
    requires CString(mem) && p0 < |mem|
    ensures err ==> Token(From(mem, p0), Double, cur0) == None
    ensures !err ==> p0 < p < |mem|
    ensures !err && done ==> Token(From(mem, p0), Double, cur0) == Some((cur, From(mem, p)))
    ensures !err && !done ==> Token(From(mem, p0), Double, cur0) == Token(From(mem, p), Double, cur)
  {
    err, done, p, cur := false, false, p0, cur0;
    ghost var s := From(mem, p0);
    FromFacts(mem, p0);
    if mem[p] == '\\' && mem[p + 1] == 'x' && IsHex(mem[p + 2]) && IsHex(mem[p + 3]) {
      assert IsHexEscape(s);
      cur := cur + [(HexValue(mem[p + 2]) * 16 + HexValue(mem[p + 3])) as char];
      p := p + 3;
    } else if mem[p] == '\\' && mem[p + 1] != NUL {
      assert !IsHexEscape(s) && |s| > 1;
      p := p + 1;
      cur := cur + [Unescape(mem[p])];
    } else if mem[p] == '"' {
      if mem[p + 1] != NUL && !IsSpace(mem[p + 1]) {
        assert !Closes(s);
        return true, false, p, cur;
      }
      assert Closes(s);
      done := true;
    } else if mem[p] == NUL {
      return true, false, p, cur;
    } else {
      assert !IsHexEscape(s);
      cur := cur + [mem[p]];
    }
    FromFacts(mem, p);
    if mem[p] != NUL {
      p := p + 1;
    }
  }

  /** The same in single quotes. */
  method SingleStep(mem: string, p0: nat, cur0: string) returns (err: bool, done: bool, p: nat, cur: string)
    requires CString(mem) && p0 < |mem|
    ensures err ==> Token(From(mem, p0), Single, cur0) == None
    ensures !err ==> p0 < p < |mem|
    ensures !err && done ==> Token(From(mem, p0), Single, cur0) == Some((cur, From(mem, p)))
    ensures !err && !done ==> Token(From(mem, p0), Single, cur0) == Token(From(mem, p), Single, cur)
  {
    err, done, p, cur := false, false, p0, cur0;
    ghost var s := From(mem, p0);
    FromFacts(mem, p0);
    if mem[p] == '\\' && mem[p + 1] == '\'' {
      p := p + 1;
      cur := cur + ['\''];
    } else if mem[p] == '\'' {
      if mem[p + 1] != NUL && !IsSpace(mem[p + 1]) {
        assert !Closes(s);
        return true, false, p, cur;
      }
      assert Closes(s);
      done := true;
    } else if mem[p] == NUL {
      return true, false, p, cur;
    } else {
      cur := cur + [mem[p]];
    }
    FromFacts(mem, p);
    if mem[p] != NUL {
      p := p + 1;
    }
  }

  /** "get a token" */
  method TokenLoop(mem: string, p0: nat) returns (err: bool, p: nat, current: string)
    requires CString(mem) && p0 < |mem|
    ensures err ==> Token(From(mem, p0), Bare, "") == None
    ensures !err ==> p < |mem| && Token(From(mem, p0), Bare, "") == Some((current, From(mem, p)))
  {
    p, current := p0, "";
    var inq, insq, done := false, false, false;
    while !done
      invariant p < |mem| && !(inq && insq)
      invariant Token(From(mem, p0), Bare, "") ==
                if done then Some((current, From(mem, p)))
                else Token(From(mem, p), if inq then Double else if insq then Single else Bare, current)
      decreases |mem| - p, !done
    {
      FromFacts(mem, p);
      if inq {
        err, done, p, current := DoubleStep(mem, p, current);
        if err { return; }
      } else if insq {
        err, done, p, current := SingleStep(mem, p, current);
        if err { return; }
      } else {
        match mem[p] {
          case ' ' => done := true;
          case '\n' => done := true;
          case '\r' => done := true;
          case '\t' => done := true;
          case '\0' => done := true;
          case '"' => inq := true;
          case '\'' => insq := true;
          case c => current := current + [c];
        }
        if mem[p] != NUL {
          p := p + 1;
        }
      }
    }
    err := false;
  }

  /** sdssplitargs; None is the NULL result. */
  method SplitArgs(mem: string) returns (r: Option<seq<string>>)
    requires CString(mem)
    ensures r == Args(From(mem, 0))
  {
    hide Token;
    var p := 0;
    var vector: seq<string> := [];
    if Args(From(mem, 0)).Some? {
      assert vector + Args(From(mem, 0)).value == Args(From(mem, 0)).value;
    }
    while true
      invariant p < |mem|
      invariant Args(From(mem, 0)) == match Args(From(mem, p)) case None => None case Some(rest) => Some(vector + rest)
      decreases |mem| - p
    {
      ghost var before := From(mem, p);
      p := SkipLoop(mem, p);
      FromFacts(mem, p);
      if mem[p] != NUL {
        var err, current;
        err, p, current := TokenLoop(mem, p);
        if err {
          return None;
        }
        ghost var rest := Args(From(mem, p));
        if rest.Some? {
          Assoc3(vector, [current], rest.value);
        }
        vector := vector + [current];
      } else {
        assert vector + [] == vector;
        return Some(vector);
      }
    }
  }

  // ------------------------------------------------------------------------
  // Reading back what was printed.

  predicate AtBoundary(rest: string) {
    rest == "" || (IsSpace(rest[0]) && EndsBare(rest[0]))
  }

  /** `text` is a way of writing the token `value`: read at a token start and followed
      by a blank or nothing, it yields exactly that token and leaves the next word. */
  ghost predicate Writes(text: string, value: string) {
    && text != "" && !IsSpace(text[0])
    && forall rest :: AtBoundary(rest) ==> WritesBefore(text, value, rest)
  }

  predicate WritesBefore(text: string, value: string, rest: string) {
    match Token(text + rest, Bare, "")
    case None => false
    case Some((token, after)) => token == value && SkipBlanks(after) == SkipBlanks(rest)
  }

  lemma EscapeStep(c: char, rest: string, cur: string)
    requires IsByte(c)
    ensures Token(Escape(c) + rest, Double, cur) == Token(rest, Double, cur + [c])
  {
    var s := Escape(c) + rest;
    if |Escape(c)| == 4 {
      assert s[4..] == rest;
      assert HexValue(s[2]) * 16 + HexValue(s[3]) == c as int;
    } else if |Escape(c)| == 2 {
      assert s[2..] == rest;
      assert s[1] != 'x' && Unescape(s[1]) == c;
    } else {
      assert s[1..] == rest;
    }
  }

  lemma {:induction false} EscapesRead(a: string, rest: string, cur: string)
    requires Bytes(a) && AtBoundary(rest)
    ensures Token(Escapes(a) + ("\"" + rest), Double, cur) == Some((cur + a, rest))
    decreases |a|
  {
    var tail := "\"" + rest;
    if a == "" {
      assert Escapes(a) + tail == tail && tail[1..] == rest && cur + a == cur;
    } else {
      hide Token, Escape;
      Assoc3(Escape(a[0]), Escapes(a[1..]), tail);
      EscapeStep(a[0], Escapes(a[1..]) + tail, cur);
      EscapesRead(a[1..], rest, cur + [a[0]]);
      assert cur + [a[0]] + a[1..] == cur + a;
    }
  }

  /** The quoted form of any byte string reads back as that string. */
  lemma ReprWrites(a: string)
    requires Bytes(a)
    ensures Writes(Repr(a), a)
  {
    forall rest | AtBoundary(rest)
      ensures WritesBefore(Repr(a), a, rest)
    {
      EscapesRead(a, rest, "");
      Assoc4("\"", Escapes(a), "\"", rest);
      assert ("\"" + (Escapes(a) + ("\"" + rest)))[1..] == Escapes(a) + ("\"" + rest);
      assert "" + a == a;
    }
  }

  /** Text that can stand without quotes. */
  predicate BareWord(w: string) {
    w != "" && !IsSpace(w[0]) && forall i :: 0 <= i < |w| ==> !EndsBare(w[i]) && w[i] != '"' && w[i] != '\''
  }

  lemma {:induction false} BareRead(w: string, rest: string, cur: string)
    requires AtBoundary(rest) && forall i :: 0 <= i < |w| ==> !EndsBare(w[i]) && w[i] != '"' && w[i] != '\''
    ensures Token(w + rest, Bare, cur) == Some((cur + w, if rest == "" then "" else rest[1..]))
    decreases |w|
  {
    if w == "" {
      assert w + rest == rest && cur + w == cur;
    } else {
      assert (w + rest)[1..] == w[1..] + rest;
      BareRead(w[1..], rest, cur + [w[0]]);
      assert cur + [w[0]] + w[1..] == cur + w;
    }
  }

  lemma BareWrites(w: string)
    requires BareWord(w)
    ensures Writes(w, w)
  {
    forall rest | AtBoundary(rest)
      ensures WritesBefore(w, w, rest)
    {
      BareRead(w, rest, "");
      assert "" + w == w;
    }
  }

  /** A token is no longer than the text it was read from, and as long only when that text
      has nothing a word must quote. */
  lemma {:induction false} TokenLength(s: string, mode: Mode, cur: string)
    requires Token(s, mode, cur).Some?
    ensures |Token(s, mode, cur).value.0| <= |cur| + |s| - (if mode == Bare then 0 else 1)
    ensures |Token(s, mode, cur).value.0| == |cur| + |s| ==>
              forall i :: 0 <= i < |s| ==> !EndsBare(s[i]) && s[i] != '"' && s[i] != '\''
    decreases |s|
  {
    if s != "" {
      match mode
      case Bare =>
        if EndsBare(s[0]) {
        } else if s[0] == '"' {
          TokenLength(s[1..], Double, cur);
        } else if s[0] == '\'' {
          TokenLength(s[1..], Single, cur);
        } else {
          TokenLength(s[1..], Bare, cur + [s[0]]);
          assert forall i :: 0 < i < |s| ==> s[i] == s[1..][i - 1];
        }
      case Double =>
        if IsHexEscape(s) {
          TokenLength(s[4..], Double, cur + [(HexValue(s[2]) * 16 + HexValue(s[3])) as char]);
        } else if s[0] == '\\' && |s| > 1 {
          TokenLength(s[2..], Double, cur + [Unescape(s[1])]);
        } else if s[0] != '"' {
          TokenLength(s[1..], Double, cur + [s[0]]);
        }
      case Single =>
        if s[0] == '\\' && |s| > 1 && s[1] == '\'' {
          TokenLength(s[2..], Single, cur + ['\'']);
        } else if s[0] != '\'' {
          TokenLength(s[1..], Single, cur + [s[0]]);
        }
    }
  }

  /** The first word of a text has the length of the text only if the text is a bare word. */
  lemma FirstWordLength(s: string)
    requires Args(s).Some? && Args(s).value != []
    ensures |Args(s).value[0]| <= |s|
    ensures |Args(s).value[0]| == |s| ==> BareWord(s)
  {
    var t := SkipBlanks(s);
    TokenLength(t, Bare, "");
    assert s != "" && IsSpace(s[0]) ==> |t| < |s|;
    hide Token;
  }

  /** A bare word in front of a blank is the first word. */
  lemma WordBefore(w: string, s: string)
    requires BareWord(w)
    ensures Args(w + (" " + s)) == match Args(s) case None => None case Some(argv) => Some([w] + argv)
  {
    var text := w + (" " + s);
    BareRead(w, " " + s, "");
    assert text[0] == w[0] && SkipBlanks(text) == text;
    assert "" + w == w && (" " + s)[1..] == s;
    hide Token;
  }

  /** Text that single quotes carry unchanged. */
  predicate SingleWord(w: string) {
    '\'' !in w && (w != "" ==> w[|w| - 1] != '\\')
  }

  lemma {:induction false} SingleRead(w: string, rest: string, cur: string)
    requires AtBoundary(rest) && SingleWord(w)
    ensures Token(w + ("'" + rest), Single, cur) == Some((cur + w, rest))
    decreases |w|
  {
    var tail := "'" + rest;
    var s := w + tail;
    if w == "" {
      assert s == tail && tail[1..] == rest && cur + w == cur;
    } else {
      assert s[1..] == w[1..] + tail;
      assert s[0] == w[0] != '\'';
      assert |w| > 1 ==> s[1] == w[1] != '\'';
      SingleRead(w[1..], rest, cur + [w[0]]);
      assert cur + [w[0]] + w[1..] == cur + w;
    }
  }

  lemma SingleWrites(w: string)
    requires SingleWord(w)
    ensures Writes("'" + w + "'", w)
  {
    forall rest | AtBoundary(rest)
      ensures WritesBefore("'" + w + "'", w, rest)
    {
      SingleRead(w, rest, "");
      assert ("'" + w + "'" + rest)[1..] == w + ("'" + rest);
      assert "" + w == w;
    }
  }

  /** Reading a list of written tokens joined by blanks, with blanks allowed at the end. */
  lemma {:induction false} ReadWords(texts: seq<string>, values: seq<string>, tail: string)
    requires |texts| == |values| && AtBoundary(tail) && SkipBlanks(tail) == ""
    requires forall i :: 0 <= i < |texts| ==> Writes(texts[i], values[i])
    ensures Args(Join(texts, " ") + tail) == Some(values)
    decreases |texts|
  {
    hide Token;
    if texts == [] {
      assert Join(texts, " ") + tail == tail;
    } else {
      var rest := if |texts| == 1 then tail else " " + (Join(texts[1..], " ") + tail);
      var s := texts[0] + rest;
      assert Join(texts, " ") + tail == s;
      assert WritesBefore(texts[0], values[0], rest);
      assert s[0] == texts[0][0] && SkipBlanks(s) == s;
      var (token, after) := Token(s, Bare, "").value;
      if |texts| == 1 {
        assert Args(after) == Some([]);
      } else {
        ReadWords(texts[1..], values[1..], tail);
        assert rest[1..] == Join(texts[1..], " ") + tail;
        assert Args(after) == Args(rest) == Args(rest[1..]);
      }
      assert values == [values[0]] + values[1..];
    }
  }

  // ------------------------------------------------------------------------
  // Quotes that open inside a word, quotes that do not close, and blanks.

  /** Bytes that neither end a word nor open a quote. */
  predicate Unquoted(w: string) {
    forall i :: 0 <= i < |w| ==> w[i] !in " \n\r\t\"'"
  }

  lemma UnquotedBytes(c: char)
    ensures c !in " \n\r\t\"'" <==> !EndsBare(c) && c != '"' && c != '\''
  {
    var s := " \n\r\t\"'";
    assert s[0] == ' ' && s[1] == '\n' && s[2] == '\r' && s[3] == '\t' && s[4] == '"' && s[5] == '\'';
  }

  lemma {:induction false} BareThen(w: string, rest: string, cur: string)
    requires Unquoted(w)
    ensures Token(w + rest, Bare, cur) == Token(rest, Bare, cur + w)
    decreases |w|
  {
    if w == "" {
      assert w + rest == rest && cur + w == cur;
    } else {
      UnquotedBytes(w[0]);
      assert (w + rest)[0] == w[0] && (w + rest)[1..] == w[1..] + rest;
      BareThen(w[1..], rest, cur + [w[0]]);
      assert cur + [w[0]] + w[1..] == cur + w;
    }
  }

  lemma {:induction false} EscapesThen(a: string, rest: string, cur: string)
    requires Bytes(a)
    ensures Token(Escapes(a) + rest, Double, cur) == Token(rest, Double, cur + a)
    decreases |a|
  {
    if a == "" {
      assert Escapes(a) + rest == rest && cur + a == cur;
    } else {
      hide Token, Escape;
      Assoc3(Escape(a[0]), Escapes(a[1..]), rest);
      EscapeStep(a[0], Escapes(a[1..]) + rest, cur);
      EscapesThen(a[1..], rest, cur + [a[0]]);
      assert cur + [a[0]] + a[1..] == cur + a;
    }
  }

  /** Text as single quotes carry it: apostrophes behind a backslash. */
  function Apostrophes(a: string): string {
    if a == "" then "" else (if a[0] == '\'' then "\\'" else [a[0]]) + Apostrophes(a[1..])
  }

  lemma {:induction false} NoApostrophes(a: string)
    requires '\'' !in a
    ensures Apostrophes(a) == a
  {
    if a != "" {
      NoApostrophes(a[1..]);
      assert a == [a[0]] + a[1..];
    }
  }

  lemma {:induction false} ApostrophesThen(a: string, rest: string, cur: string)
    requires a != "" && a[|a| - 1] == '\\' ==> rest == "" || rest[0] != '\''
    ensures Token(Apostrophes(a) + rest, Single, cur) == Token(rest, Single, cur + a)
    decreases |a|
  {
    if a == "" {
      assert Apostrophes(a) + rest == rest && cur + a == cur;
    } else {
      var first := if a[0] == '\'' then "\\'" else [a[0]];
      var more := Apostrophes(a[1..]) + rest;
      Assoc3(first, Apostrophes(a[1..]), rest);
      if a[0] == '\'' {
        assert (first + more)[2..] == more && (first + more)[0] == '\\' && (first + more)[1] == '\'';
      } else {
        assert (first + more)[1..] == more && (first + more)[0] == a[0];
        assert a[1..] != "" ==> Apostrophes(a[1..])[0] != '\'';
      }
      ApostrophesThen(a[1..], rest, cur + [a[0]]);
      assert cur + [a[0]] + a[1..] == cur + a;
    }
  }

  /** The token from an opening quote on, when the bytes up to the closing one are read. */
  lemma DoubleFrom(a: string, rest: string, cur: string)
    requires Bytes(a)
    ensures Token("\"" + (Escapes(a) + rest), Bare, cur) == Token(rest, Double, cur + a)
  {
    var s := "\"" + (Escapes(a) + rest);
    assert s[0] == '"' && s[1..] == Escapes(a) + rest;
    hide Escapes;
    EscapesThen(a, rest, cur);
  }

  lemma SingleFrom(a: string, rest: string, cur: string)
    requires a != "" && a[|a| - 1] == '\\' ==> rest == "" || rest[0] != '\''
    ensures Token("'" + (Apostrophes(a) + rest), Bare, cur) == Token(rest, Single, cur + a)
  {
    var s := "'" + (Apostrophes(a) + rest);
    assert s[0] == '\'' && s[1..] == Apostrophes(a) + rest;
    hide Apostrophes;
    ApostrophesThen(a, rest, cur);
  }

  /** A closing quote: the token ends before a blank and is refused before anything else. */
  lemma Closing(q: char, rest: string, mode: Mode, cur: string)
    requires (q == '"' && mode == Double) || (q == '\'' && mode == Single)
    ensures Token([q] + rest, mode, cur) == if rest == "" || IsSpace(rest[0]) then Some((cur, rest)) else None
  {
    var s := [q] + rest;
    assert s[0] == q && s[1..] == rest && (rest != "" ==> s[1] == rest[0]);
  }

  lemma DoubleToken(w: string, a: string, rest: string)
    requires Unquoted(w) && Bytes(a) && AtBoundary(rest)
    ensures Token(w + ("\"" + Escapes(a) + "\"") + rest, Bare, "") == Some((w + a, rest))
  {
    BoundaryBlank(rest);
    hide *;
    Assoc3(w, "\"" + Escapes(a) + "\"", rest);
    Assoc4("\"", Escapes(a), "\"", rest);
    BareThen(w, "\"" + Escapes(a) + "\"" + rest, "");
    DoubleFrom(a, "\"" + rest, "" + w);
    Closing('"', rest, Double, w + a);
    assert "" + w == w;
  }

  lemma SingleToken(w: string, a: string, rest: string)
    requires Unquoted(w) && (a != "" ==> a[|a| - 1] != '\\') && AtBoundary(rest)
    ensures Token(w + ("'" + Apostrophes(a) + "'") + rest, Bare, "") == Some((w + a, rest))
  {
    BoundaryBlank(rest);
    hide *;
    Assoc3(w, "'" + Apostrophes(a) + "'", rest);
    Assoc4("'", Apostrophes(a), "'", rest);
    BareThen(w, "'" + Apostrophes(a) + "'" + rest, "");
    SingleFrom(a, "'" + rest, "" + w);
    Closing('\'', rest, Single, w + a);
    assert "" + w == w;
  }

  lemma BoundaryBlank(rest: string)
    ensures AtBoundary(rest) ==> rest == "" || IsSpace(rest[0])
  {}

  /** A text read as that token, up to any blank or the end, is a way of writing it. */
  lemma ReadAsToken(text: string, value: string)
    requires text != "" && !IsSpace(text[0])
    requires forall rest :: AtBoundary(rest) ==> Token(text + rest, Bare, "") == Some((value, rest))
    ensures Writes(text, value)
  {
    hide Token, AtBoundary;
    forall rest | AtBoundary(rest)
      ensures WritesBefore(text, value, rest)
    {
      assert Token(text + rest, Bare, "") == Some((value, rest));
    }
  }

  lemma QuoteStarts(w: string, q: char, inner: string)
    requires (w != "" ==> !IsSpace(w[0])) && !IsSpace(q)
    ensures var s := w + ([q] + inner + [q]); s != "" && !IsSpace(s[0])
  {
    assert (w + ([q] + inner + [q]))[0] == if w == "" then q else w[0];
  }

  /** A quote that opens inside a word adds to the word: bytes before the quote stay. */
  lemma PrefixedReprWrites(w: string, a: string)
    requires Unquoted(w) && (w != "" ==> !IsSpace(w[0])) && Bytes(a)
    ensures Writes(w + Repr(a), w + a)
  {
    assert Repr(a) == "\"" + Escapes(a) + "\"";
    QuoteStarts(w, '"', Escapes(a));
    hide *;
    forall rest | AtBoundary(rest)
      ensures Token(w + Repr(a) + rest, Bare, "") == Some((w + a, rest))
    {
      DoubleToken(w, a, rest);
    }
    ReadAsToken(w + Repr(a), w + a);
  }

  /** The same for single quotes; any text that does not end in a backslash. */
  lemma PrefixedSingleWrites(w: string, a: string)
    requires Unquoted(w) && (w != "" ==> !IsSpace(w[0])) && (a != "" ==> a[|a| - 1] != '\\')
    ensures Writes(w + ("'" + Apostrophes(a) + "'"), w + a)
    ensures '\'' !in a ==> Writes(w + ("'" + a + "'"), w + a)
  {
    QuoteStarts(w, '\'', Apostrophes(a));
    hide *;
    var text := w + ("'" + Apostrophes(a) + "'");
    forall rest | AtBoundary(rest)
      ensures Token(text + rest, Bare, "") == Some((w + a, rest))
    {
      SingleToken(w, a, rest);
    }
    ReadAsToken(text, w + a);
    if '\'' !in a {
      NoApostrophes(a);
    }
  }

  /** A text whose first token is refused is refused. */
  lemma RefusedFirst(s: string)
    requires s != "" && !IsSpace(s[0]) && Token(s, Bare, "") == None
    ensures Args(s) == None
  {
    assert SkipBlanks(s) == s;
    hide Token;
  }

  /** After a closing quote anything but a blank makes the whole text refused. */
  lemma BadClose(w: string, a: string, c: char, rest: string)
    requires Unquoted(w) && (w != "" ==> !IsSpace(w[0])) && Bytes(a) && !IsSpace(c)
    ensures Args(w + ("\"" + (Escapes(a) + ("\"" + ([c] + rest))))) == None
    ensures a == "" || a[|a| - 1] != '\\' ==> Args(w + ("'" + (Apostrophes(a) + ("'" + ([c] + rest))))) == None
  {
    var double, single := "\"" + (Escapes(a) + ("\"" + ([c] + rest))), "'" + (Apostrophes(a) + ("'" + ([c] + rest)));
    hide Escapes, Apostrophes, Args, Token;
    BareThen(w, double, "");
    DoubleFrom(a, "\"" + ([c] + rest), "" + w);
    Closing('"', [c] + rest, Double, "" + w + a);
    assert (w + double)[0] == if w == "" then '"' else w[0];
    RefusedFirst(w + double);
    if a == "" || a[|a| - 1] != '\\' {
      BareThen(w, single, "");
      SingleFrom(a, "'" + ([c] + rest), "" + w);
      Closing('\'', [c] + rest, Single, "" + w + a);
      assert (w + single)[0] == if w == "" then '\'' else w[0];
      RefusedFirst(w + single);
    }
  }

  /** So does a quote that never closes. */
  lemma Unclosed(w: string, a: string)
    requires Unquoted(w) && (w != "" ==> !IsSpace(w[0])) && Bytes(a)
    ensures Args(w + ("\"" + Escapes(a))) == None
    ensures Args(w + ("'" + Apostrophes(a))) == None
  {
    var double, single := "\"" + Escapes(a), "'" + Apostrophes(a);
    assert Escapes(a) + "" == Escapes(a) && Apostrophes(a) + "" == Apostrophes(a);
    assert Token("", Double, "" + w + a) == None && Token("", Single, "" + w + a) == None;
    hide Escapes, Apostrophes, Args, Token;
    BareThen(w, double, "");
    DoubleFrom(a, "", "" + w);
    assert (w + double)[0] == if w == "" then '"' else w[0];
    RefusedFirst(w + double);
    BareThen(w, single, "");
    SingleFrom(a, "", "" + w);
    assert (w + single)[0] == if w == "" then '\'' else w[0];
    RefusedFirst(w + single);
  }

  /** Words are apart at a space, a line feed, a carriage return or a tab, and any white
      space before a word is skipped. */
  lemma Blanks(w: string, c: char, s: string)
    requires BareWord(w)
    ensures c == ' ' || c == '\n' || c == '\r' || c == '\t' ==>
              Args(w + ([c] + s)) == match Args(s) case None => None case Some(argv) => Some([w] + argv)
    ensures c == ' ' || c == '\n' || c == '\r' || c == '\t' || c == 11 as char || c == 12 as char ==> Args([c] + s) == Args(s)
  {
    assert ([c] + s)[1..] == s && ([c] + s)[0] == c;
    if c == ' ' || c == '\n' || c == '\r' || c == '\t' {
      var text := w + ([c] + s);
      BareRead(w, [c] + s, "");
      assert text[0] == w[0] && SkipBlanks(text) == text;
      assert "" + w == w;
      hide Token;
    }
  }

  /** Inside double quotes, a backslash before anything but n, r, t, b, a and a full hex
      escape stands for the byte behind it; hex digits may be of either case. */
  lemma OddEscapes(c: char, rest: string, cur: string)
    requires c !in "nrtba" && !(c == 'x' && |rest| >= 2 && IsHex(rest[0]) && IsHex(rest[1]))
    ensures Token(['\\', c] + rest, Double, cur) == Token(rest, Double, cur + [c])
    ensures forall d :: 'A' <= d <= 'F' ==> IsHex(d) && HexValue(d) == d as int - 55
  {
    var s := ['\\', c] + rest;
    assert s[0] == '\\' && s[1] == c && s[2..] == rest && (|rest| >= 2 ==> s[2] == rest[0] && s[3] == rest[1]);
    var five := "nrtba";
    assert five[0] == 'n' && five[1] == 'r' && five[2] == 't' && five[3] == 'b' && five[4] == 'a';
  }

  /** The quoted form byte by byte: printable ASCII but quote and backslash as it is. */
  lemma EscapeTable(c: char)
    requires IsByte(c)
    ensures Escape('\n') == "\\n" && Escape('\r') == "\\r" && Escape('\t') == "\\t"
    ensures Escape(7 as char) == "\\a" && Escape(8 as char) == "\\b" && Escape('"') == "\\\"" && Escape('\\') == "\\\\"
    ensures 32 <= c as int <= 126 && c != '"' && c != '\\' ==> Escape(c) == [c]
    ensures (c as int < 32 && c !in "\n\r\t" && c as int != 7 && c as int != 8) || c as int > 126 ==>
              && |Escape(c)| == 4 && Escape(c)[..2] == "\\x"
              && "0123456789abcdef"[c as int / 16] == Escape(c)[2] && "0123456789abcdef"[c as int % 16] == Escape(c)[3]
  {
    var ws := "\n\r\t";
    assert ws[0] == '\n' && ws[1] == '\r' && ws[2] == '\t';
    HexDigits(c as int / 16);
    HexDigits(c as int % 16);
    hide HexDigit;
  }

  lemma HexDigits(n: nat)
    requires n < 16
    ensures HexDigit(n) == "0123456789abcdef"[n]
  {
    var s := "0123456789abcdef";
    if n < 8 {
      assert n == 0 || n == 1 || n == 2 || n == 3 || n == 4 || n == 5 || n == 6 || n == 7;
    } else {
      assert n == 8 || n == 9 || n == 10 || n == 11 || n == 12 || n == 13 || n == 14 || n == 15;
    }
  }

  function Reprs(args: seq<string>): (r: seq<string>)
    requires forall i :: 0 <= i < |args| ==> Bytes(args[i])
    ensures |r| == |args| && forall i :: 0 <= i < |r| ==> r[i] == Repr(args[i])
  {
    seq(|args|, i requires 0 <= i < |args| => Repr(args[i]))
  }

  lemma {:induction false} EscapesHaveNoNul(s: string)
    requires Bytes(s)
    ensures NUL !in Escapes(s)
  {
    if s != "" {
      EscapesHaveNoNul(s[1..]);
      assert NUL !in Escape(s[0]);
    }
  }

  /** The quoting round trip, for any list of byte strings. The quoted text is a C string
      whatever the bytes are. */
  lemma QuotingRoundTrip(args: seq<string>)
    requires forall i :: 0 <= i < |args| ==> Bytes(args[i])
    ensures Args(Join(Reprs(args), " ")) == Some(args)
    ensures NUL !in Join(Reprs(args), " ")
  {
    var texts := Reprs(args);
    forall i | 0 <= i < |texts|
      ensures Writes(texts[i], args[i]) && NUL !in texts[i]
    {
      ReprWrites(args[i]);
      EscapesHaveNoNul(args[i]);
    }
    hide Writes, Repr, Args;
    ReadWords(texts, args, "");
    JoinHasNoNul(texts);
    assert Join(texts, " ") + "" == Join(texts, " ");
  }
}
