/** The command formatters of hiredis.c: exact two-pass sizing, format expansion,
    and the round trip through the reply reader. */
module Format {
  import opened Text
  import opened Decimal
  import opened Resp
  import opened RespMachine

  /** The first n arguments as bulk items. */
  function Bulks(args: seq<string>, n: nat): string
    requires n <= |args|
  {
    if n == 0 then "" else Bulks(args, n - 1) + PrintBulk(args[n - 1])
  }

  function CountLine(argc: nat): string {
    "*" + Dec(argc) + CRLF
  }

  /** The command on the wire. */
  function Command(args: seq<string>): string {
    CountLine(|args|) + Bulks(args, |args|)
  }

  lemma {:induction false} BulksGrow(args: seq<string>, m: nat, n: nat)
    requires m <= n <= |args|
    ensures |Bulks(args, m)| <= |Bulks(args, n)|
  {
    if m < n {
      BulksGrow(args, m, n - 1);
    }
  }

  lemma NextArg(args: seq<string>, j: nat)
    requires j < |args|
    ensures Bulks(args, j + 1) == Bulks(args, j) + PrintBulk(args[j])
    ensures |CountLine(|args|)| + |Bulks(args, j)| + |PrintBulk(args[j])| <= |Command(args)|
  {
    BulksGrow(args, j + 1, |args|);
  }

  // ------------------------------------------------------------------------
  // redisFormatCommandArgv

  /** bulklen */
  method BulkLen(len: nat) returns (n: nat)
    ensures forall text: string :: |text| == len ==> n == |PrintBulk(text)|
  {
    var digits := CountDigits(len);
    n := 1 + digits + 2 + len + 2;
  }

  /** sprintf into the command buffer: the text and a terminator after it. */
  method Sprintf(cmd: array<char>, pos: nat, text: string) returns (n: nat)
    requires pos + |text| < cmd.Length
    modifies cmd
    ensures n == |text|
    ensures cmd[..pos + n] == old(cmd[..pos]) + text
  {
    forall i | 0 <= i < |text| { cmd[pos + i] := text[i]; }
    cmd[pos + |text|] := NUL;
    n := |text|;
  }

  /** memcpy of one argument; no terminator is written. */
  method Memcpy(cmd: array<char>, pos: nat, text: string)
    requires pos + |text| <= cmd.Length
    modifies cmd
    ensures cmd[..pos + |text|] == old(cmd[..pos]) + text
  {
    forall i | 0 <= i < |text| { cmd[pos + i] := text[i]; }
  }

  /** One argument: "$len\r\n", the bytes, "\r\n". The terminators sprintf leaves are overwritten. */
  method WriteArg(cmd: array<char>, pos0: nat, arg: string) returns (pos: nat)
    requires pos0 + |PrintBulk(arg)| < cmd.Length
    modifies cmd
    ensures pos == pos0 + |PrintBulk(arg)|
    ensures cmd[..pos] == old(cmd[..pos0]) + PrintBulk(arg)
  {
    ghost var before := cmd[..pos0];
    pos := pos0;
    var n := Sprintf(cmd, pos, "$" + Dec(|arg|) + CRLF);
    pos := pos + n;
    Memcpy(cmd, pos, arg);
    pos := pos + |arg|;
    ghost var text := cmd[..pos];
    cmd[pos] := '\r';
    cmd[pos + 1] := '\n';
    pos := pos + 2;
    assert cmd[..pos] == text + CRLF;
    hide Dec;
    Assoc3(before, "$" + Dec(|arg|) + CRLF, arg);
    Assoc3(before, "$" + Dec(|arg|) + CRLF + arg, CRLF);
  }

  /** The second pass of both formatters, into an allocation of totlen + 1 bytes. */
  method BuildCommand(args: seq<string>, totlen: nat) returns (cmd: array<char>)
    requires totlen == |Command(args)|
    ensures fresh(cmd) && cmd.Length == totlen + 1
    ensures cmd[..totlen] == Command(args) && cmd[totlen] == NUL
  {
    hide Dec, PrintBulk, CountLine;
    cmd := new char[totlen + 1](_ => NUL);
    ghost var head := CountLine(|args|);
    BulksGrow(args, 0, |args|);
    var pos := Sprintf(cmd, 0, CountLine(|args|));
    assert cmd[..pos] == head + Bulks(args, 0);
    for j := 0 to |args|
      invariant pos == |head| + |Bulks(args, j)| <= totlen
      invariant cmd[..pos] == head + Bulks(args, j)
    {
      hide Dec, PrintBulk, CountLine, Bulks, Command;
      NextArg(args, j);
      pos := WriteArg(cmd, pos, args[j]);
      Assoc3(head, Bulks(args, j), PrintBulk(args[j]));
    }
    assert pos == totlen;
    ghost var text := cmd[..pos];
    cmd[pos] := NUL;
    assert cmd[..pos] == text;
  }

  method FormatCommandArgv(args: seq<string>) returns (cmd: array<char>, totlen: nat)
    requires |Command(args)| <= INT_MAX
    ensures totlen == |Command(args)|
    ensures fresh(cmd) && cmd.Length == totlen + 1
    ensures cmd[..totlen] == Command(args) && cmd[totlen] == NUL
  {
    var digits := CountDigits(|args|);
    totlen := 1 + digits + 2;
    for j := 0 to |args|
      invariant totlen == |CountLine(|args|)| + |Bulks(args, j)|
    {
      var n := BulkLen(|args[j]|);
      totlen := totlen + n;
    }
    cmd := BuildCommand(args, totlen);
  }

  // ------------------------------------------------------------------------
  // redisvFormatCommand, for formats of literals, blanks, %s, %b and %%.

  /** A format as a list of pieces; Arg stands for %s (terminated) and %b. */
  datatype Piece = Lit(c: char) | Blank | Arg(terminated: bool)

  /** None for the conversions handed to printf and for invalid ones. */
  function Lex(f: string): Option<seq<Piece>>
    decreases |f|
  {
    if f == "" then Some([])
    else if f[0] != '%' || |f| == 1 then Cons(if f[0] == ' ' then Blank else Lit(f[0]), Lex(f[1..]))
    else
      match f[1]
      case 's' => Cons(Arg(true), Lex(f[2..]))
      case 'b' => Cons(Arg(false), Lex(f[2..]))
      case '%' => Cons(Lit('%'), Lex(f[2..]))
      case _ => None
  }

  function Cons(p: Piece, rest: Option<seq<Piece>>): Option<seq<Piece>> {
    if rest.None? then None else Some([p] + rest.value)
  }

  /** The arguments fit the directives: enough of them, and C strings hold no NUL. */
  predicate Matches(ps: seq<Piece>, args: seq<string>) {
    if ps == [] then args == []
    else if ps[0].Arg? then args != [] && (ps[0].terminated ==> NUL !in args[0]) && Matches(ps[1..], args[1..])
    else Matches(ps[1..], args)
  }

  /** The length of the leading run without blanks. */
  function Run(ps: seq<Piece>): (n: nat)
    ensures n <= |ps|
    ensures n < |ps| ==> ps[n].Blank?
    ensures ps != [] && !ps[0].Blank? ==> n > 0
  {
    if ps == [] || ps[0].Blank? then 0 else 1 + Run(ps[1..])
  }

  /** The words of a format: its maximal runs without blanks. Arguments play no part. */
  function Words(ps: seq<Piece>): seq<seq<Piece>>
    decreases |ps|
  {
    if ps == [] then []
    else if ps[0].Blank? then Words(ps[1..])
    else [ps[..Run(ps)]] + Words(ps[Run(ps)..])
  }

  function Arity(ps: seq<Piece>): nat {
    if ps == [] then 0 else (if ps[0].Arg? then 1 else 0) + Arity(ps[1..])
  }

  /** A word with its directives replaced by arguments, in order. */
  function Subst(word: seq<Piece>, args: seq<string>): string
    requires Arity(word) <= |args|
  {
    if word == [] then ""
    else
      match word[0]
      case Lit(c) => [c] + Subst(word[1..], args)
      case Blank => Subst(word[1..], args)
      case Arg(_) => args[0] + Subst(word[1..], args[1..])
  }

  function ArityAll(words: seq<seq<Piece>>): nat {
    if words == [] then 0 else Arity(words[0]) + ArityAll(words[1..])
  }

  /** Each word takes its share of the arguments. */
  function Expand(words: seq<seq<Piece>>, args: seq<string>): (r: seq<string>)
    requires ArityAll(words) <= |args|
    ensures |r| == |words|
  {
    if words == [] then []
    else [Subst(words[0], args)] + Expand(words[1..], args[Arity(words[0])..])
  }

  lemma {:induction false} ArityRun(ps: seq<Piece>)
    ensures Arity(ps[..Run(ps)]) + Arity(ps[Run(ps)..]) == Arity(ps)
  {
    if ps != [] && !ps[0].Blank? {
      ArityRun(ps[1..]);
      assert ps[..Run(ps)][1..] == ps[1..][..Run(ps[1..])];
      assert ps[Run(ps)..] == ps[1..][Run(ps[1..])..];
    } else {
      assert ps[..0] == [] && ps[0..] == ps;
    }
  }

  lemma {:induction false} ArityWords(ps: seq<Piece>)
    ensures ArityAll(Words(ps)) == Arity(ps)
    decreases |ps|
  {
    if ps != [] {
      if ps[0].Blank? {
        ArityWords(ps[1..]);
      } else {
        ArityRun(ps);
        ArityWords(ps[Run(ps)..]);
      }
    }
  }

  lemma {:induction false} MatchesArity(ps: seq<Piece>, args: seq<string>)
    requires Matches(ps, args)
    ensures Arity(ps) == |args|
  {
    if ps != [] {
      MatchesArity(ps[1..], if ps[0].Arg? then args[1..] else args);
    }
  }

  /** The words still to come when the loop stands before `ps` with `cur` collected. */
  function Pending(cur: string, touched: bool, ps: seq<Piece>, args: seq<string>): seq<string>
    requires Arity(ps) <= |args|
  {
    ArityWords(ps);
    if !touched then Expand(Words(ps), args)
    else
      ArityRun(ps);
      ArityWords(ps[Run(ps)..]);
      [cur + Subst(ps[..Run(ps)], args)] + Expand(Words(ps[Run(ps)..]), args[Arity(ps[..Run(ps)])..])
  }

  lemma PendingBlank(cur: string, touched: bool, ps: seq<Piece>, args: seq<string>)
    requires ps != [] && ps[0].Blank? && Arity(ps) <= |args|
    ensures Pending(cur, touched, ps, args) == (if touched then [cur] else []) + Pending("", false, ps[1..], args)
  {
    ArityWords(ps[1..]);
    if touched {
      assert ps[..0] == [] && ps[0..] == ps && args[0..] == args;
      assert cur + "" == cur;
    }
  }

  lemma PendingEnd(cur: string, touched: bool)
    ensures Pending(cur, touched, [], []) == if touched then [cur] else []
  {
    assert cur + "" == cur;
  }

  lemma RunTail(ps: seq<Piece>)
    requires ps != [] && !ps[0].Blank?
    ensures Run(ps) == 1 + Run(ps[1..])
    ensures ps[..Run(ps)] == [ps[0]] + ps[1..][..Run(ps[1..])]
    ensures ps[Run(ps)..] == ps[1..][Run(ps[1..])..]
  {
    var n := Run(ps[1..]);
    assert Run(ps) == 1 + n;
    hide Run;
    assert ps[..1 + n] == [ps[0]] + ps[1..][..n];
  }

  lemma SubstCons(p: Piece, word: seq<Piece>, args: seq<string>)
    requires !p.Blank? && Arity([p] + word) <= |args|
    ensures p.Lit? ==> Arity([p] + word) == Arity(word) && Subst([p] + word, args) == [p.c] + Subst(word, args)
    ensures p.Arg? ==> Arity([p] + word) == 1 + Arity(word) && Subst([p] + word, args) == args[0] + Subst(word, args[1..])
  {
    assert ([p] + word)[1..] == word;
  }

  lemma PendingTouched(cur: string, ps: seq<Piece>, args: seq<string>)
    requires Arity(ps) <= |args|
    ensures Arity(ps[..Run(ps)]) + Arity(ps[Run(ps)..]) == Arity(ps) && ArityAll(Words(ps[Run(ps)..])) == Arity(ps[Run(ps)..])
    ensures Pending(cur, true, ps, args) == [cur + Subst(ps[..Run(ps)], args)] + Expand(Words(ps[Run(ps)..]), args[Arity(ps[..Run(ps)])..])
  {
    ArityRun(ps);
    ArityWords(ps[Run(ps)..]);
  }

  /** Starting a word is the same as continuing an empty one. */
  lemma PendingStart(ps: seq<Piece>, args: seq<string>)
    requires ps != [] && !ps[0].Blank? && Arity(ps) <= |args|
    ensures Pending("", false, ps, args) == Pending("", true, ps, args)
  {
    PendingTouched("", ps, args);
    ArityWords(ps);
    var word := Subst(ps[..Run(ps)], args);
    assert "" + word == word;
  }

  lemma PendingShift(cur: string, text: string, ps: seq<Piece>, args: seq<string>, args': seq<string>)
    requires ps != [] && !ps[0].Blank? && Arity(ps) <= |args|
    requires ps[0].Lit? ==> text == [ps[0].c] && args' == args
    requires ps[0].Arg? ==> text == args[0] && args' == args[1..]
    ensures Arity(ps[1..]) <= |args'|
    ensures Pending(cur, true, ps, args) == Pending(cur + text, true, ps[1..], args')
  {
    hide Words, Run, Subst, Expand, Pending;
    var tail, n := ps[1..], Run(ps[1..]);
    RunTail(ps);
    PendingTouched(cur, ps, args);
    PendingTouched(cur + text, tail, args');
    SubstCons(ps[0], tail[..n], args);
    Assoc3(cur, text, Subst(tail[..n], args'));
    assert args[Arity(ps[..Run(ps)])..] == args'[Arity(tail[..n])..];
  }

  /** A literal or an argument goes into the current word. */
  lemma PendingMore(cur: string, touched: bool, ps: seq<Piece>, args: seq<string>)
    requires ps != [] && !ps[0].Blank? && Arity(ps) <= |args| && (!touched ==> cur == "")
    ensures Pending(cur, touched, ps, args) ==
            if ps[0].Lit? then Pending(cur + [ps[0].c], true, ps[1..], args)
            else Pending(cur + args[0], true, ps[1..], args[1..])
  {
    hide Pending;
    if !touched {
      PendingStart(ps, args);
    }
    if ps[0].Lit? {
      PendingShift(cur, [ps[0].c], ps, args, args);
    } else {
      PendingShift(cur, args[0], ps, args, args[1..]);
    }
  }

  /** What redisvFormatCommand is to produce: the words of the format, substituted. */
  function Formatted(format: string, args: seq<string>): (argv: seq<string>)
    requires Lex(format).Some? && Matches(Lex(format).value, args)
  {
    MatchesArity(Lex(format).value, args);
    ArityWords(Lex(format).value);
    Expand(Words(Lex(format).value), args)
  }

  /** The position c in the format and k in the arguments, with the words finished so far. */
  ghost predicate Scanned(format: string, args: seq<string>, c: nat, k: nat, curargv: seq<string>, cur: string, touched: bool) {
    && Lex(format).Some? && Matches(Lex(format).value, args)
    && c <= |format| && k <= |args|
    && Lex(format[c..]).Some? && Matches(Lex(format[c..]).value, args[k..])
    && Arity(Lex(format[c..]).value) <= |args[k..]|
    && (!touched ==> cur == "")
    && curargv + Pending(cur, touched, Lex(format[c..]).value, args[k..]) == Formatted(format, args)
  }

  lemma ScanStart(format: string, args: seq<string>)
    requires Lex(format).Some? && Matches(Lex(format).value, args)
    ensures Scanned(format, args, 0, 0, [], "", false)
  {
    assert format[0..] == format && args[0..] == args;
    MatchesArity(Lex(format).value, args);
    var words := Pending("", false, Lex(format).value, args);
    assert [] + words == words;
  }

  lemma ScanBlank(format: string, args: seq<string>, c: nat, k: nat, curargv: seq<string>, cur: string, touched: bool)
    requires Scanned(format, args, c, k, curargv, cur, touched) && c < |format| && format[c] == ' '
    ensures Scanned(format, args, c + 1, k, if touched then curargv + [cur] else curargv, "", false)
  {
    hide Pending, Formatted;
    var f, a := format[c..], args[k..];
    assert f[1..] == format[c + 1..];
    var ps := Lex(f).value;
    assert ps[1..] == Lex(f[1..]).value && ps[0] == Blank;
    PendingBlank(cur, touched, ps, a);
    var words := Pending("", false, ps[1..], a);
    if touched {
      Assoc3(curargv, [cur], words);
    } else {
      assert [] + words == words;
    }
  }

  /** A piece of `width` format bytes that adds `text` to the word and uses up `uses` arguments. */
  lemma ScanMore(format: string, args: seq<string>, c: nat, k: nat, curargv: seq<string>, cur: string, touched: bool, width: nat)
    requires Scanned(format, args, c, k, curargv, cur, touched) && c < |format| && format[c] != ' '
    requires width == if format[c] != '%' || c + 1 == |format| then 1 else 2
    ensures c + width <= |format|
    ensures width == 1 ==> Scanned(format, args, c + 1, k, curargv, cur + [format[c]], true)
    ensures width == 2 && format[c + 1] == '%' ==> Scanned(format, args, c + 2, k, curargv, cur + ['%'], true)
    ensures width == 2 && format[c + 1] != '%' ==>
              k < |args| && format[c + 1] in "sb" && Scanned(format, args, c + 2, k + 1, curargv, cur + args[k], true)
  {
    hide Pending, Formatted;
    var f, a := format[c..], args[k..];
    assert width <= |f| && f[width..] == format[c + width..];
    var ps := Lex(f).value;
    assert ps[1..] == Lex(f[width..]).value && !ps[0].Blank?;
    PendingMore(cur, touched, ps, a);
    if ps[0].Arg? {
      assert a[1..] == args[k + 1..];
    }
  }

  lemma ScanEnd(format: string, args: seq<string>, k: nat, curargv: seq<string>, cur: string, touched: bool)
    requires Scanned(format, args, |format|, k, curargv, cur, touched)
    ensures (if touched then curargv + [cur] else curargv) == Formatted(format, args)
  {
    assert format[|format|..] == "";
    assert args[k..] == [];
    PendingEnd(cur, touched);
    if !touched {
      assert curargv + [] == curargv;
    }
  }

  /** redisvFormatCommand. The result is the command for the words of the format, each
      with its own arguments substituted: blanks and CRLF inside an argument stay there. */
  method FormatCommand(format: string, args: seq<string>) returns (cmd: array<char>, totlen: nat)
    requires NUL !in format && Lex(format).Some? && Matches(Lex(format).value, args)
    requires |Command(Formatted(format, args))| <= INT_MAX
    ensures totlen == |Command(Formatted(format, args))| && fresh(cmd) && cmd.Length == totlen + 1
    ensures cmd[..totlen] == Command(Formatted(format, args)) && cmd[totlen] == NUL
  {
    hide Lex, Matches, Formatted, Scanned;
    var curarg, touched := "", false;
    var curargv: seq<string> := [];
    totlen := 0;
    var c, k := 0, 0;
    ScanStart(format, args);
    while c < |format|
      invariant c <= |format| && Scanned(format, args, c, k, curargv, curarg, touched)
      invariant !touched ==> curarg == ""
      invariant totlen == |Bulks(curargv, |curargv|)|
    {
      if format[c] != '%' || c + 1 == |format| {
        if format[c] == ' ' {
          ScanBlank(format, args, c, k, curargv, curarg, touched);
          if touched {
            curargv, totlen := AddArg(curargv, curarg, totlen);
            curarg := "";
            touched := false;
          }
        } else {
          ScanMore(format, args, c, k, curargv, curarg, touched, 1);
          curarg := curarg + [format[c]];
          touched := true;
        }
      } else {
        ScanMore(format, args, c, k, curargv, curarg, touched, 2);
        if format[c + 1] == '%' {
          curarg := curarg + ['%'];
        } else {
          curarg := curarg + args[k];
          k := k + 1;
        }
        touched := true;
        c := c + 1;
      }
      c := c + 1;
    }
    ScanEnd(format, args, k, curargv, curarg, touched);
    if touched {
      curargv, totlen := AddArg(curargv, curarg, totlen);
    }
    var digits := CountDigits(|curargv|);
    totlen := totlen + 1 + digits + 2;
    cmd := BuildCommand(curargv, totlen);
  }

  /** curargv[argc++] = curarg; totlen += bulklen(...) */
  method AddArg(curargv: seq<string>, curarg: string, totlen: nat) returns (argv: seq<string>, newlen: nat)
    requires totlen == |Bulks(curargv, |curargv|)|
    ensures argv == curargv + [curarg] && newlen == |Bulks(argv, |argv|)|
  {
    argv := curargv + [curarg];
    var n := BulkLen(|curarg|);
    newlen := totlen + n;
    BulksPrefix(curargv, argv, |curargv|);
  }

  lemma {:induction false} BulksPrefix(a: seq<string>, b: seq<string>, n: nat)
    requires n <= |a| <= |b| && a == b[..|a|]
    ensures Bulks(a, n) == Bulks(b, n)
  {
    if n > 0 {
      BulksPrefix(a, b, n - 1);
    }
  }

  // ------------------------------------------------------------------------
  // What the formatters promise.

  /** The number of arguments on the wire is a matter of the format alone. */
  lemma ArgumentCount(format: string, args: seq<string>, args': seq<string>)
    requires Lex(format).Some? && Matches(Lex(format).value, args) && Matches(Lex(format).value, args')
    ensures |Formatted(format, args)| == |Formatted(format, args')| == |Words(Lex(format).value)|
  {}

  /** A format written from what it means: a word is a list of literal bytes and of slots
      with the argument that goes there. */
  datatype Part = Byte(c: char) | Slot(value: string, terminated: bool) {
    predicate Ok() {
      if Byte? then c != ' ' else terminated ==> NUL !in value
    }

    function Spelled(): string {
      if Slot? then (if terminated then "%s" else "%b") else if c == '%' then "%%" else [c]
    }

    function Piece(): Piece {
      if Slot? then Arg(terminated) else Lit(c)
    }

    function Value(): string {
      if Slot? then value else [c]
    }
  }

  /** A word with the number of blanks before it. */
  datatype Spaced = Spaced(gap: nat, word: seq<Part>)

  function Spelled(word: seq<Part>): string {
    if word == [] then "" else word[0].Spelled() + Spelled(word[1..])
  }

  function Value(word: seq<Part>): string {
    if word == [] then "" else word[0].Value() + Value(word[1..])
  }

  function Slots(word: seq<Part>): seq<string> {
    if word == [] then [] else (if word[0].Slot? then [word[0].value] else []) + Slots(word[1..])
  }

  function Blanks(n: nat): string {
    if n == 0 then "" else " " + Blanks(n - 1)
  }

  function FormatText(ws: seq<Spaced>, tail: nat): string {
    if ws == [] then Blanks(tail) else Blanks(ws[0].gap) + (Spelled(ws[0].word) + FormatText(ws[1..], tail))
  }

  function AllSlots(ws: seq<Spaced>): seq<string> {
    if ws == [] then [] else Slots(ws[0].word) + AllSlots(ws[1..])
  }

  function AllValues(ws: seq<Spaced>): (r: seq<string>)
    ensures |r| == |ws| && forall i :: 0 <= i < |ws| ==> r[i] == Value(ws[i].word)
  {
    seq(|ws|, i requires 0 <= i < |ws| => Value(ws[i].word))
  }

  function PiecesOf(word: seq<Part>): (ps: seq<Piece>)
    ensures |ps| == |word| && forall i :: 0 <= i < |word| ==> ps[i] == word[i].Piece()
  {
    seq(|word|, i requires 0 <= i < |word| => word[i].Piece())
  }

  lemma LexPart(p: Part, rest: string)
    requires p.Ok() && Lex(rest).Some?
    ensures Lex(p.Spelled() + rest) == Some([p.Piece()] + Lex(rest).value)
  {
    var f := p.Spelled() + rest;
    assert f[|p.Spelled()|..] == rest;
    if p.Byte? && p.c != '%' {
      assert f[0] == p.c;
    } else {
      assert f[0] == '%' && f[1] == if p.Slot? then (if p.terminated then 's' else 'b') else '%';
    }
  }

  lemma {:induction false} LexWord(word: seq<Part>, rest: string)
    requires (forall i :: 0 <= i < |word| ==> word[i].Ok()) && Lex(rest).Some?
    ensures Lex(Spelled(word) + rest) == Some(PiecesOf(word) + Lex(rest).value)
  {
    var ps := Lex(rest).value;
    if word == [] {
      assert Spelled(word) + rest == rest && PiecesOf(word) + ps == ps;
    } else {
      var tail := word[1..];
      LexWord(tail, rest);
      LexPart(word[0], Spelled(tail) + rest);
      Assoc3(word[0].Spelled(), Spelled(tail), rest);
      assert [word[0].Piece()] + (PiecesOf(tail) + ps) == PiecesOf(word) + ps;
    }
  }

  lemma PiecesTail(word: seq<Part>, ps: seq<Piece>)
    requires word != []
    ensures var all := PiecesOf(word) + ps; all[0] == word[0].Piece() && all[1..] == PiecesOf(word[1..]) + ps
  {}

  lemma SlotsTail(word: seq<Part>, args: seq<string>)
    requires word != []
    ensures if word[0].Slot?
            then Slots(word) + args != [] && (Slots(word) + args)[0] == word[0].value && (Slots(word) + args)[1..] == Slots(word[1..]) + args
            else Slots(word) == Slots(word[1..])
  {
    var tail := Slots(word[1..]);
    if word[0].Slot? {
      var all := [word[0].value] + tail + args;
      assert Slots(word) == [word[0].value] + tail;
      hide *;
      Assoc3([word[0].value], tail, args);
      assert all[0] == word[0].value && all[1..] == tail + args;
    } else {
      assert [] + tail == tail;
    }
  }

  lemma {:induction false} WordRun(word: seq<Part>, ps: seq<Piece>)
    requires ps == [] || ps[0].Blank?
    ensures Run(PiecesOf(word) + ps) == |word|
  {
    if word == [] {
      assert PiecesOf(word) + ps == ps;
    } else {
      PiecesTail(word, ps);
      hide PiecesOf;
      WordRun(word[1..], ps);
    }
  }

  lemma {:induction false} WordMatches(word: seq<Part>, ps: seq<Piece>, args: seq<string>)
    requires forall i :: 0 <= i < |word| ==> word[i].Ok()
    ensures Matches(PiecesOf(word) + ps, Slots(word) + args) == Matches(ps, args)
  {
    if word == [] {
      assert PiecesOf(word) + ps == ps && Slots(word) + args == args;
    } else {
      PiecesTail(word, ps);
      SlotsTail(word, args);
      hide PiecesOf, Slots;
      WordMatches(word[1..], ps, args);
    }
  }

  lemma {:induction false} WordValue(word: seq<Part>, args: seq<string>)
    ensures Arity(PiecesOf(word)) == |Slots(word)|
    ensures Subst(PiecesOf(word), Slots(word) + args) == Value(word)
  {
    if word != [] {
      var tail := word[1..];
      WordValue(tail, args);
      assert PiecesOf(word) == [word[0].Piece()] + PiecesOf(tail);
      SlotsTail(word, args);
      SubstCons(word[0].Piece(), PiecesOf(tail), Slots(word) + args);
    }
  }

  /** A word of the format is an argument of its own. */
  lemma FirstWord(word: seq<Part>, rest: string, args: seq<string>)
    requires word != [] && (forall i :: 0 <= i < |word| ==> word[i].Ok()) && (rest == "" || rest[0] == ' ')
    requires Lex(rest).Some? && Matches(Lex(rest).value, args)
    ensures Lex(Spelled(word) + rest).Some? && Matches(Lex(Spelled(word) + rest).value, Slots(word) + args)
    ensures Formatted(Spelled(word) + rest, Slots(word) + args) == [Value(word)] + Formatted(rest, args)
  {
    LexWord(word, rest);
    hide *;
    WordThen(Spelled(word) + rest, word, Lex(rest).value, args);
    FormattedIs(rest, args);
  }

  lemma FormattedIs(format: string, args: seq<string>)
    requires Lex(format).Some? && Matches(Lex(format).value, args)
    ensures ArityAll(Words(Lex(format).value)) == |args|
    ensures Formatted(format, args) == Expand(Words(Lex(format).value), args)
  {
    MatchesArity(Lex(format).value, args);
    ArityWords(Lex(format).value);
  }

  lemma WordThen(format: string, word: seq<Part>, tail: seq<Piece>, args: seq<string>)
    requires word != [] && (forall i :: 0 <= i < |word| ==> word[i].Ok()) && (tail == [] || tail[0].Blank?)
    requires Lex(format) == Some(PiecesOf(word) + tail) && Matches(tail, args)
    ensures ArityAll(Words(tail)) == |args|
    ensures Matches(PiecesOf(word) + tail, Slots(word) + args)
    ensures Formatted(format, Slots(word) + args) == [Value(word)] + Expand(Words(tail), args)
  {
    WordRun(word, tail);
    WordMatches(word, tail, args);
    WordValue(word, args);
    MatchesArity(tail, args);
    ArityWords(tail);
    FormattedIs(format, Slots(word) + args);
    WordsThen(word, tail);
    hide Lex, Subst, Value, Slots, Matches, Arity, PiecesOf, Words, Run;
    assert (Slots(word) + args)[|Slots(word)|..] == args;
  }

  lemma WordsThen(word: seq<Part>, tail: seq<Piece>)
    requires word != [] && Run(PiecesOf(word) + tail) == |word|
    ensures Words(PiecesOf(word) + tail) == [PiecesOf(word)] + Words(tail)
  {
    var ps := PiecesOf(word) + tail;
    assert ps[..|word|] == PiecesOf(word) && ps[|word|..] == tail && !ps[0].Blank?;
    hide Run, PiecesOf;
  }

  lemma BlankBefore(rest: string, args: seq<string>)
    requires Lex(rest).Some? && Matches(Lex(rest).value, args)
    ensures Lex(" " + rest).Some? && Matches(Lex(" " + rest).value, args)
    ensures Formatted(" " + rest, args) == Formatted(rest, args)
  {
    assert (" " + rest)[1..] == rest;
    var ps := Lex(rest).value;
    assert ([Blank] + ps)[1..] == ps;
  }

  lemma {:induction false} BlanksBefore(n: nat, rest: string, args: seq<string>)
    requires Lex(rest).Some? && Matches(Lex(rest).value, args)
    ensures Lex(Blanks(n) + rest).Some? && Matches(Lex(Blanks(n) + rest).value, args)
    ensures Formatted(Blanks(n) + rest, args) == Formatted(rest, args)
  {
    if n == 0 {
      assert Blanks(n) + rest == rest;
    } else {
      BlanksBefore(n - 1, rest, args);
      BlankBefore(Blanks(n - 1) + rest, args);
      Assoc3(" ", Blanks(n - 1), rest);
    }
  }

  /** The arguments are the words of the format, each with its literal bytes and its slots
      filled in order, whatever the slots hold: an empty one counts, and blanks, '%' and
      CRLF inside it stay there. */
  lemma {:induction false} FormattedWords(ws: seq<Spaced>, tail: nat)
    requires forall i, j :: 0 <= i < |ws| && 0 <= j < |ws[i].word| ==> ws[i].word[j].Ok()
    requires forall i :: 0 <= i < |ws| ==> ws[i].word != [] && (i > 0 ==> ws[i].gap > 0)
    ensures Lex(FormatText(ws, tail)).Some? && Matches(Lex(FormatText(ws, tail)).value, AllSlots(ws))
    ensures Formatted(FormatText(ws, tail), AllSlots(ws)) == AllValues(ws)
  {
    if ws == [] {
      NoWords();
      BlanksBefore(tail, "", []);
      assert Blanks(tail) + "" == Blanks(tail);
    } else {
      FormattedWords(ws[1..], tail);
      StartsBlank(ws[1..], tail);
      assert ws == [ws[0]] + ws[1..];
      hide *;
      FormatCons(ws[0], ws[1..], tail);
      FormattedCons(ws[0], FormatText(ws[1..], tail), AllSlots(ws[1..]));
      ValuesCons(ws[0], ws[1..]);
    }
  }

  lemma FormattedCons(w: Spaced, rest: string, args: seq<string>)
    requires w.word != [] && (forall i :: 0 <= i < |w.word| ==> w.word[i].Ok()) && (rest == "" || rest[0] == ' ')
    requires Lex(rest).Some? && Matches(Lex(rest).value, args)
    ensures var f := Blanks(w.gap) + (Spelled(w.word) + rest);
            && Lex(f).Some? && Matches(Lex(f).value, Slots(w.word) + args)
            && Formatted(f, Slots(w.word) + args) == [Value(w.word)] + Formatted(rest, args)
  {
    hide *;
    FirstWord(w.word, rest, args);
    BlanksBefore(w.gap, Spelled(w.word) + rest, Slots(w.word) + args);
  }

  lemma ValuesCons(w: Spaced, ws: seq<Spaced>)
    ensures AllValues([w] + ws) == [Value(w.word)] + AllValues(ws)
  {}

  lemma FormatCons(w: Spaced, ws: seq<Spaced>, tail: nat)
    ensures FormatText([w] + ws, tail) == Blanks(w.gap) + (Spelled(w.word) + FormatText(ws, tail))
    ensures AllSlots([w] + ws) == Slots(w.word) + AllSlots(ws)
  {
    assert ([w] + ws)[1..] == ws;
  }

  lemma NoWords()
    ensures Lex("") == Some([]) && Matches([], []) && Formatted("", []) == []
  {}

  lemma StartsBlank(ws: seq<Spaced>, tail: nat)
    requires ws != [] ==> ws[0].gap > 0
    ensures FormatText(ws, tail) == "" || FormatText(ws, tail)[0] == ' '
  {}

  function Literal(w: string): (r: seq<Part>)
    ensures |r| == |w| && forall i :: 0 <= i < |w| ==> r[i] == Byte(w[i])
  {
    seq(|w|, i requires 0 <= i < |w| => Byte(w[i]))
  }

  lemma {:induction false} LiteralWord(w: string)
    requires '%' !in w && ' ' !in w
    ensures Spelled(Literal(w)) == w && Value(Literal(w)) == w && Slots(Literal(w)) == []
    ensures forall i :: 0 <= i < |w| ==> Literal(w)[i].Ok()
  {
    if w != "" {
      LiteralWord(w[1..]);
      assert Literal(w)[1..] == Literal(w[1..]);
    }
  }

  /** A '%' that ends the format stands for itself. */
  lemma {:induction false} LonePercent(w: string)
    requires '%' !in w && ' ' !in w
    ensures Lex(w + "%").Some? && Matches(Lex(w + "%").value, [])
    ensures Formatted(w + "%", []) == [w + "%"]
  {
    var word := Literal(w) + [Byte('%')];
    LexPercent("%");
    LiteralWord(w);
    LexWord(Literal(w), "%");
    assert PiecesOf(Literal(w)) + [Lit('%')] == PiecesOf(word) + [];
    LiteralPercent(w);
    assert word[|w|].Ok();
    hide *;
    NoWords();
    WordThen(w + "%", word, [], []);
    PercentWord(word);
  }

  lemma LexPercent(f: string)
    requires |f| == 1 && f[0] == '%'
    ensures Lex(f) == Some([Lit('%')])
  {
    assert f[1..] == "" && [Lit('%')] + [] == [Lit('%')];
  }

  lemma PercentWord(word: seq<Part>)
    ensures Slots(word) + [] == Slots(word) && Words([]) == [] && Expand([], []) == []
    ensures [Value(word)] + [] == [Value(word)] && PiecesOf(word) + [] == PiecesOf(word)
  {}

  lemma {:induction false} LiteralPercent(w: string)
    ensures Value(Literal(w) + [Byte('%')]) == w + "%" && Slots(Literal(w) + [Byte('%')]) == []
  {
    var word := Literal(w) + [Byte('%')];
    if w == "" {
      assert word == [Byte('%')] && word[1..] == [];
    } else {
      LiteralPercent(w[1..]);
      assert word[1..] == Literal(w[1..]) + [Byte('%')];
      assert [w[0]] + (w[1..] + "%") == w + "%";
    }
  }

  /** GET_USER_1S: the login is the third argument, whatever bytes it holds. */
  lemma UserLookup(login: string)
    requires NUL !in login
    ensures Lex("HGET users %s").Some? && Matches(Lex("HGET users %s").value, [login])
    ensures Formatted("HGET users %s", [login]) == ["HGET", "users", login]
  {
    NoWords();
    hide *;
    SlotLast(login);
    LiteralBefore("users", " %s", [login]);
    assert " " + ("users" + " %s") == " users %s";
    BlankBefore("users" + " %s", [login]);
    LiteralBefore("HGET", " users %s", [login]);
    assert "HGET" + " users %s" == "HGET users %s";
  }

  lemma OnePart(p: Part)
    ensures Spelled([p]) == p.Spelled() && Value([p]) == p.Value()
    ensures Slots([p]) == if p.Slot? then [p.value] else []
  {
    assert [p][1..] == [];
    assert p.Spelled() + "" == p.Spelled() && p.Value() + "" == p.Value();
  }

  lemma SlotLast(login: string)
    requires NUL !in login
    ensures Lex(" %s").Some? && Matches(Lex(" %s").value, [login]) && Formatted(" %s", [login]) == [login]
  {
    var w := Spaced(1, [Slot(login, true)]);
    NoWords();
    OnePart(Slot(login, true));
    assert Blanks(1) == " ";
    hide Blanks, Spelled, Slots, Value, Lex, Matches, Formatted;
    FormattedCons(w, "", []);
    assert " " + ("%s" + "") == " %s";
  }

  /** A word without directives is an argument as it stands. */
  lemma LiteralBefore(w: string, rest: string, args: seq<string>)
    requires w != "" && '%' !in w && ' ' !in w && (rest == "" || rest[0] == ' ')
    requires Lex(rest).Some? && Matches(Lex(rest).value, args)
    ensures Lex(w + rest).Some? && Matches(Lex(w + rest).value, args)
    ensures Formatted(w + rest, args) == [w] + Formatted(rest, args)
  {
    LiteralWord(w);
    hide *;
    FirstWord(Literal(w), rest, args);
    assert [] + args == args;
  }

  // ------------------------------------------------------------------------
  // Printer and reader.

  function Strs(args: seq<string>): (ts: seq<Tree>)
    ensures |ts| == |args| && forall i :: 0 <= i < |args| ==> ts[i] == Str(args[i])
  {
    seq(|args|, i requires 0 <= i < |args| => Str(args[i]))
  }

  /** The reply tree that carries a command. */
  function CommandTree(args: seq<string>): Tree {
    Multi(|args|, Strs(args))
  }

  lemma {:induction false} BulksArePrinted(args: seq<string>, n: nat)
    requires n <= |args|
    ensures PrintAll(Strs(args)[..n]) == Bulks(args, n)
  {
    if n > 0 {
      BulksArePrinted(args, n - 1);
      assert Strs(args)[..n] == Strs(args)[..n - 1] + [Str(args[n - 1])];
      PrintAllSnoc(Strs(args)[..n - 1], Str(args[n - 1]));
    }
  }

  lemma {:induction false} PrintAllSnoc(ts: seq<Tree>, t: Tree)
    ensures PrintAll(ts + [t]) == PrintAll(ts) + Print(t)
  {
    if ts == [] {
      assert [t][1..] == [];
    } else {
      assert (ts + [t])[1..] == ts[1..] + [t];
      PrintAllSnoc(ts[1..], t);
    }
  }

  lemma CommandIsPrinted(args: seq<string>)
    ensures Command(args) == Print(CommandTree(args))
  {
    BulksArePrinted(args, |args|);
    assert Strs(args)[..|args|] == Strs(args);
  }

  function CommandStream(commands: seq<seq<string>>): string {
    if commands == [] then "" else Command(commands[0]) + CommandStream(commands[1..])
  }

  function CommandTrees(commands: seq<seq<string>>): (ts: seq<Tree>)
    ensures |ts| == |commands| && forall i :: 0 <= i < |commands| ==> ts[i] == CommandTree(commands[i])
  {
    seq(|commands|, i requires 0 <= i < |commands| => CommandTree(commands[i]))
  }

  /** The count and every argument are no longer than the command. */
  lemma {:induction false} BulksBound(args: seq<string>, n: nat)
    requires n <= |args|
    ensures n <= |Bulks(args, n)| && forall i :: 0 <= i < n ==> |args[i]| + 2 <= |Bulks(args, n)|
  {
    if n > 0 {
      hide Dec;
      BulksBound(args, n - 1);
    }
  }

  lemma CommandPrintable(args: seq<string>)
    requires |Command(args)| <= INT_MAX
    ensures Printable(CommandTree(args), MAX_DEPTH)
  {
    BulksBound(args, |args|);
    hide Bulks, CountLine;
    forall i | 0 <= i < |args|
      ensures Printable(Strs(args)[i], MAX_DEPTH - 1)
    {
      assert Strs(args)[i] == Str(args[i]);
    }
  }

  lemma FirstCommand(args: seq<string>, rest: string)
    requires |Command(args)| <= INT_MAX
    ensures NextReply(IDLE, Command(args) + rest) == Reply(CommandTree(args), rest)
  {
    hide Command, Print, DecodeItem, NextReply;
    CommandIsPrinted(args);
    CommandPrintable(args);
    DecodePrint(CommandTree(args), 0, rest);
    NextReplyMeaning(IDLE, Command(args) + rest);
  }

  /** Any sequence of formatted commands is read back as exactly those argument lists,
      with nothing left unread and the reader idle. */
  lemma {:induction false} CommandsRoundTrip(commands: seq<seq<string>>)
    requires forall i :: 0 <= i < |commands| ==> |Command(commands[i])| <= INT_MAX
    ensures Drain(IDLE, CommandStream(commands)) == Drained(CommandTrees(commands), None, IDLE, "")
  {
    if commands == [] {
      EmptyInput(IDLE);
    } else {
      CommandsRoundTrip(commands[1..]);
      hide Command, CommandStream, Drain, CommandTrees;
      StreamStep(commands);
      DrainCommand(commands[0], CommandStream(commands[1..]));
    }
  }

  lemma StreamStep(commands: seq<seq<string>>)
    requires commands != []
    ensures CommandStream(commands) == Command(commands[0]) + CommandStream(commands[1..])
    ensures CommandTrees(commands) == [CommandTree(commands[0])] + CommandTrees(commands[1..])
  {
    hide Command, CommandTree;
  }

  lemma DrainCommand(args: seq<string>, rest: string)
    requires |Command(args)| <= INT_MAX
    ensures Drain(IDLE, Command(args) + rest) == Prepend(CommandTree(args), Drain(IDLE, rest))
  {
    hide Command, CommandTree, Drain, NextReply;
    FirstCommand(args, rest);
    DrainStep(IDLE, Command(args) + rest);
  }

  /** The same for a command cut into any pieces: exactly one array reply with exactly
      the arguments, and no unread bytes. */
  lemma ChunkedRoundTrip(args: seq<string>, chunks: seq<string>)
    requires Concat(chunks) == Command(args) && |Command(args)| <= INT_MAX
    ensures DrainChunks(FRESH, chunks) == Drained([CommandTree(args)], None, IDLE, "")
  {
    ChunkingIndependence(chunks);
    CommandsRoundTrip([args]);
    assert CommandStream([args]) == Command(args) + CommandStream([args][1..]) && [args][1..] == [];
    assert Command(args) + "" == Command(args);
    assert CommandTrees([args]) == [CommandTree(args)];
  }
}
