/** sds dynamic strings: one allocation with a header of one of five widths.
    The header fields are kept as the C struct keeps them, truncated to their
    width on every store; `Valid` is what makes those truncations harmless. */
module SdsString {
  import opened Text

  const SDS_TYPE_5 := 0
  const SDS_TYPE_8 := 1
  const SDS_TYPE_16 := 2
  const SDS_TYPE_32 := 3
  const SDS_TYPE_64 := 4
  const SDS_MAX_PREALLOC := 1024 * 1024
  const SIZE_MAX := 0xffff_ffff_ffff_ffff

  /** Number of values the length field of a header type can hold. */
  function Width(kind: int): int {
    if kind == SDS_TYPE_5 then 32
    else if kind == SDS_TYPE_8 then 0x100
    else if kind == SDS_TYPE_16 then 0x1_0000
    else if kind == SDS_TYPE_32 then 0x1_0000_0000
    else 0x1_0000_0000_0000_0000
  }

  /** What a length field of the given type keeps of a stored value. */
  function Stored(n: nat, kind: int): (r: nat)
    ensures n < Width(kind) ==> r == n
    ensures r < Width(kind)
  {
    if n < Width(kind) then n else n % Width(kind)
  }

  lemma {:induction false} AddBytes(x: nat, k: nat)
    requires x < 256
    ensures (x + 256 * k) % 256 == x
  {
    if k > 0 {
      AddBytes(x, k - 1);
    }
  }

  lemma {:induction false} AddShorts(x: nat, k: nat)
    ensures (x + 32 * k) % 32 == x % 32
  {
    if k > 0 {
      AddShorts(x, k - 1);
      assert (x + 32 * (k - 1) + 32) % 32 == (x + 32 * (k - 1)) % 32;
    }
  }

  /** The flags byte of a type 5 string: SDS_TYPE_5 | (n << SDS_TYPE_BITS), cut to a byte. */
  function ShortFlags(n: nat): (flags: int)
    ensures 0 <= flags < 256 && flags % 8 == SDS_TYPE_5 && flags / 8 == n % 32
    ensures flags == n * 8 % 256
  {
    AddBytes(n % 32 * 8, n / 32);
    n % 32 * 8
  }

  /** A length cut to a byte and then to five bits is cut to five bits. */
  lemma StoredShort(n: nat)
    ensures n % 256 % 32 == n % 32 == Stored(n, SDS_TYPE_5)
  {
    AddShorts(n % 256, 8 * (n / 256));
  }

  /** A store loses whole rounds of the field's width. */
  lemma StoredModulo(n: nat, kind: int) returns (rounds: nat)
    ensures n == Stored(n, kind) + rounds * Width(kind)
  {
    rounds := n / Width(kind);
  }

  /** sdsReqType */
  function ReqType(size: nat): (kind: int)
    ensures SDS_TYPE_5 <= kind <= SDS_TYPE_64
    ensures size <= SIZE_MAX ==> size < Width(kind)
    ensures kind == SDS_TYPE_5 <==> size < 32
    ensures kind > SDS_TYPE_8 ==> size + 1 >= Width(kind - 1)
    ensures SDS_TYPE_5 < kind < SDS_TYPE_64 ==> size + 1 < Width(kind)
  {
    if size < 32 then SDS_TYPE_5
    else if size < 0xff then SDS_TYPE_8
    else if size < 0xffff then SDS_TYPE_16
    else if size < 0xffff_ffff then SDS_TYPE_32
    else SDS_TYPE_64
  }

  /** A length whose grown allocation (with the widest header) does not wrap size_t. */
  predicate Allocatable(len: nat) {
    len + SDS_MAX_PREALLOC + 18 <= SIZE_MAX
  }

  /** The allocation sdsMakeRoomFor asks for when it must reallocate. */
  function Grown(needed: nat): nat {
    if needed < SDS_MAX_PREALLOC then needed * 2 else needed + SDS_MAX_PREALLOC
  }

  // ------------------------------------------------------------------------
  // The byte-sequence meaning of the in-place operations.

  /** strchr(cset, c) != NULL: the terminator of cset is found too. */
  predicate InSet(c: char, cset: string) {
    c == NUL || c in cset
  }

  function TrimLeft(s: string, cset: string): string {
    if s != [] && InSet(s[0], cset) then TrimLeft(s[1..], cset) else s
  }

  function TrimRight(s: string, cset: string): string {
    if s != [] && InSet(s[|s| - 1], cset) then TrimRight(s[..|s| - 1], cset) else s
  }

  /** Inclusive slice with negative indexes counted from the end and both ends clamped. */
  function Slice(s: string, start: int, end: int): string {
    var from := if start < 0 then Max(0, |s| + start) else start;
    var to := Min(|s|, 1 + if end < 0 then Max(0, |s| + end) else end);
    if from < to then s[from..to] else ""
  }

  /** Whether position k of n lies between both ends, each counted from the front, or from
      the back when negative; an end before the front is the first byte. */
  predicate Between(k: int, n: int, start: int, end: int) {
    && (if start >= 0 then k >= start else k - n >= start)
    && (if end >= 0 then k <= end else k - n <= end || (k == 0 && end < -n))
  }

  /** sdsrange keeps just the bytes between both ends. */
  lemma SliceMeaning(s: string, start: int, end: int) returns (i: nat, j: nat)
    ensures i <= j <= |s| && Slice(s, start, end) == s[i..j]
    ensures forall k :: 0 <= k < |s| ==> (i <= k < j <==> Between(k, |s|, start, end))
  {
    i := Min(|s|, if start < 0 then Max(0, |s| + start) else start);
    j := Max(i, Min(|s|, 1 + if end < 0 then Max(0, |s| + end) else end));
  }

  /** What sdstrim means: a block of set bytes, the result, a block of set bytes,
      and the result neither starts nor ends with a set byte. */
  lemma {:induction false} TrimMeaning(s: string, cset: string) returns (i: nat, j: nat)
    ensures i <= j <= |s| && TrimRight(TrimLeft(s, cset), cset) == s[i..j]
    ensures forall k :: 0 <= k < i || j <= k < |s| ==> InSet(s[k], cset)
    ensures i < j ==> !InSet(s[i], cset) && !InSet(s[j - 1], cset)
  {
    i := TrimLeftMeaning(s, cset);
    var k := TrimRightMeaning(s[i..], cset);
    j := i + k;
    assert s[i..][..k] == s[i..j];
    assert forall m :: j <= m < |s| ==> s[m] == s[i..][m - i];
    if i < j {
      assert s[i..][k - 1] == s[j - 1];
    }
  }

  lemma {:induction false} TrimLeftMeaning(s: string, cset: string) returns (i: nat)
    ensures i <= |s| && TrimLeft(s, cset) == s[i..]
    ensures forall k :: 0 <= k < i ==> InSet(s[k], cset)
    ensures i < |s| ==> !InSet(s[i], cset)
  {
    if s != [] && InSet(s[0], cset) {
      var n := TrimLeftMeaning(s[1..], cset);
      i := n + 1;
      assert forall k :: 1 <= k < i ==> s[k] == s[1..][k - 1];
    } else {
      i := 0;
    }
  }

  lemma {:induction false} TrimRightMeaning(s: string, cset: string) returns (j: nat)
    ensures j <= |s| && TrimRight(s, cset) == s[..j]
    ensures forall k :: j <= k < |s| ==> InSet(s[k], cset)
    ensures j > 0 ==> !InSet(s[j - 1], cset)
    decreases |s|
  {
    if s != [] && InSet(s[|s| - 1], cset) {
      j := TrimRightMeaning(s[..|s| - 1], cset);
      assert s[..|s| - 1][..j] == s[..j];
    } else {
      j := |s|;
    }
  }

  /** The bounds that sdstrim finds are those of the trimmed text. */
  lemma {:induction false} TrimIs(s: string, cset: string, i: nat, j: nat)
    requires i <= j <= |s| && (i == j ==> j == |s|)
    requires forall k :: 0 <= k < i || j <= k < |s| ==> InSet(s[k], cset)
    requires i < j ==> !InSet(s[i], cset) && !InSet(s[j - 1], cset)
    ensures TrimRight(TrimLeft(s, cset), cset) == s[i..j]
  {
    var m := TrimLeftMeaning(s, cset);
    assert m == i;
    var t := s[i..];
    var n := TrimRightMeaning(t, cset);
    assert forall k :: 0 <= k < |t| ==> t[k] == s[i + k];
    assert n == j - i;
    assert t[..n] == s[i..j];
  }

  // ------------------------------------------------------------------------
  // The growth policy.

  /** Length, allocation and number of reallocations of a string of type 8 or wider. */
  datatype Room = Room(len: nat, alloc: nat, moves: nat)

  /** The effect of one single-byte sdscatlen. */
  function AppendByte(r: Room): Room {
    if r.len < r.alloc then Room(r.len + 1, r.alloc, r.moves)
    else Room(r.len + 1, Grown(r.len + 1), r.moves + 1)
  }

  /** The spare room after a reallocation: as much as is needed, up to one megabyte. */
  lemma SpareRoom(needed: nat)
    ensures Grown(needed) - needed == if needed < 1048576 then needed else 1048576
  {}

  /** n single-byte appends to sdsempty(). */
  function AppendBytes(n: nat): Room {
    if n == 0 then Room(0, 0, 0) else AppendByte(AppendBytes(n - 1))
  }

  function Pow2(k: nat): nat {
    if k == 0 then 1 else 2 * Pow2(k - 1)
  }

  /** k reallocations need at least 2^k - 1 appended bytes, below the prealloc limit. */
  lemma {:induction false} GrowthBound(n: nat)
    requires n < SDS_MAX_PREALLOC
    ensures AppendBytes(n).len == n
    ensures AppendBytes(n).alloc == 2 * Pow2(AppendBytes(n).moves) - 2
    ensures Pow2(AppendBytes(n).moves) <= n + 1 <= 2 * Pow2(AppendBytes(n).moves)
  {
    if n > 0 {
      GrowthBound(n - 1);
      assert AppendBytes(n) == AppendByte(AppendBytes(n - 1));
      hide AppendBytes;
    }
  }

  // ------------------------------------------------------------------------
  // sdscatfmt

  /** The formats modelled: no lone '%' at the end and no numeric or sds conversion. */
  predicate FmtOk(fmt: string, args: seq<string>)
    decreases |fmt|
  {
    if fmt == "" then args == []
    else if fmt[0] != '%' then FmtOk(fmt[1..], args)
    else |fmt| > 1 && fmt[1] !in "SiIuU" &&
         if fmt[1] == 's' then args != [] && NUL !in args[0] && FmtOk(fmt[2..], args[1..]) else FmtOk(fmt[2..], args)
  }

  function FmtText(fmt: string, args: seq<string>): string
    requires FmtOk(fmt, args)
    decreases |fmt|
  {
    if fmt == "" then ""
    else if fmt[0] != '%' then [fmt[0]] + FmtText(fmt[1..], args)
    else if fmt[1] == 's' then args[0] + FmtText(fmt[2..], args[1..])
    else [fmt[1]] + FmtText(fmt[2..], args)
  }

  /** A text in which every '%' is written twice. */
  function Doubled(w: string): string {
    if w == "" then "" else (if w[0] == '%' then "%%" else [w[0]]) + Doubled(w[1..])
  }

  /** A format with a text before each %s and one behind the last. */
  function FmtOf(texts: seq<string>, last: string): string {
    if texts == [] then Doubled(last) else Doubled(texts[0]) + ("%s" + FmtOf(texts[1..], last))
  }

  function Interleaved(texts: seq<string>, args: seq<string>, last: string): string
    requires |texts| == |args|
  {
    if texts == [] then last else texts[0] + (args[0] + Interleaved(texts[1..], args[1..], last))
  }

  lemma FmtByte(c: char, rest: string, args: seq<string>)
    requires FmtOk(rest, args)
    ensures var f := (if c == '%' then "%%" else [c]) + rest; FmtOk(f, args) && FmtText(f, args) == [c] + FmtText(rest, args)
  {
    var f := (if c == '%' then "%%" else [c]) + rest;
    assert f[0] == c && (c != '%' ==> f[1..] == rest) && (c == '%' ==> f[1] == '%' && f[2..] == rest);
  }

  lemma {:induction false} FmtLiteral(w: string, rest: string, args: seq<string>)
    requires FmtOk(rest, args)
    ensures FmtOk(Doubled(w) + rest, args) && FmtText(Doubled(w) + rest, args) == w + FmtText(rest, args)
  {
    if w == "" {
      assert Doubled(w) + rest == rest && w + FmtText(rest, args) == FmtText(rest, args);
    } else {
      FmtLiteral(w[1..], rest, args);
      var first, tail := if w[0] == '%' then "%%" else [w[0]], Doubled(w[1..]);
      assert Doubled(w) == first + tail && [w[0]] + w[1..] == w;
      hide FmtOk, FmtText, Doubled;
      FmtByte(w[0], tail + rest, args);
      Assoc3(first, tail, rest);
      Assoc3([w[0]], w[1..], FmtText(rest, args));
    }
  }

  lemma FmtSlot(arg: string, rest: string, args: seq<string>)
    requires NUL !in arg && FmtOk(rest, args)
    ensures FmtOk("%s" + rest, [arg] + args) && FmtText("%s" + rest, [arg] + args) == arg + FmtText(rest, args)
  {
    var f, all := "%s" + rest, [arg] + args;
    assert f[0] == '%' && f[1] == 's' && f[2..] == rest && all[0] == arg && all[1..] == args;
  }

  /** sdscatfmt appends the texts with the arguments between them. */
  lemma {:induction false} FmtMeaning(texts: seq<string>, args: seq<string>, last: string)
    requires |texts| == |args| && forall i :: 0 <= i < |args| ==> NUL !in args[i]
    ensures FmtOk(FmtOf(texts, last), args)
    ensures FmtText(FmtOf(texts, last), args) == Interleaved(texts, args, last)
  {
    if texts == [] {
      FmtLiteral(last, "", []);
      assert Doubled(last) + "" == Doubled(last) && last + FmtText("", []) == last;
    } else {
      var rest := FmtOf(texts[1..], last);
      FmtMeaning(texts[1..], args[1..], last);
      assert args == [args[0]] + args[1..];
      hide FmtOk, FmtText, Doubled;
      FmtSlot(args[0], rest, args[1..]);
      FmtLiteral(texts[0], "%s" + rest, args);
    }
  }

  /** Any other letter after a '%' stands for itself. */
  lemma FmtOther(c: char, rest: string, args: seq<string>)
    requires c !in "sSiIuU" && FmtOk(rest, args)
    ensures FmtOk(['%', c] + rest, args) && FmtText(['%', c] + rest, args) == [c] + FmtText(rest, args)
  {
    var f := ['%', c] + rest;
    assert f[0] == '%' && f[1] == c && f[2..] == rest;
  }

  lemma FmtStep(fmt: string, args: seq<string>, f: nat, k: nat)
    requires f < |fmt| && k <= |args| && FmtOk(fmt[f..], args[k..])
    ensures fmt[f] != '%' ==>
              FmtOk(fmt[f + 1..], args[k..]) && FmtText(fmt[f..], args[k..]) == [fmt[f]] + FmtText(fmt[f + 1..], args[k..])
    ensures fmt[f] == '%' ==> f + 1 < |fmt|
    ensures fmt[f] == '%' && fmt[f + 1] == 's' ==>
              k < |args| && FmtOk(fmt[f + 2..], args[k + 1..]) && FmtText(fmt[f..], args[k..]) == args[k] + FmtText(fmt[f + 2..], args[k + 1..])
    ensures fmt[f] == '%' && fmt[f + 1] != 's' ==>
              FmtOk(fmt[f + 2..], args[k..]) && FmtText(fmt[f..], args[k..]) == [fmt[f + 1]] + FmtText(fmt[f + 2..], args[k..])
  {
    var rest, left := fmt[f..], args[k..];
    assert rest[1..] == fmt[f + 1..];
    if fmt[f] == '%' {
      assert rest[2..] == fmt[f + 2..];
      if fmt[f + 1] == 's' {
        assert left[1..] == args[k + 1..];
      }
    }
  }

  /** The string so far and what the rest of the format adds make up the text. */
  ghost predicate FmtAt(fmt: string, args: seq<string>, f: nat, k: nat, content: string, text: string) {
    f <= |fmt| && k <= |args| && FmtOk(fmt[f..], args[k..]) && content + FmtText(fmt[f..], args[k..]) == text
  }

  lemma FmtStart(fmt: string, args: seq<string>, content: string)
    requires FmtOk(fmt, args)
    ensures FmtAt(fmt, args, 0, 0, content, content + FmtText(fmt, args))
  {
    assert fmt[0..] == fmt && args[0..] == args;
  }

  lemma FmtEnd(fmt: string, args: seq<string>, k: nat, content: string, text: string)
    requires FmtAt(fmt, args, |fmt|, k, content, text)
    ensures content == text
  {
    assert fmt[|fmt|..] == "" && content + "" == content;
  }

  function Max(a: int, b: int): int { if a < b then b else a }

  function Min(a: int, b: int): int { if a < b then a else b }

  function Zeros(n: nat): (s: string)
    ensures |s| == n
  {
    seq(n, _ => NUL)
  }

  /** A new allocation that keeps a string of length len and its terminator. */
  method CopyOf(data: array<char>, len: nat, capacity: nat) returns (newdata: array<char>)
    requires len < data.Length && len <= capacity
    ensures fresh(newdata) && newdata.Length == capacity + 1
    ensures newdata[..len] == data[..len] && newdata[len] == data[len]
  {
    newdata := new char[capacity + 1](_ => NUL);
    forall i | 0 <= i <= len { newdata[i] := data[i]; }
  }

  /** The memset of sdsgrowzero, which includes the terminator. */
  method FillZeros(data: array<char>, from: nat, to: nat)
    requires from <= to < data.Length
    modifies data
    ensures data[..to] == old(data[..from]) + Zeros(to - from) && data[to] == NUL
  {
    forall i | from <= i <= to { data[i] := NUL; }
    var now, was := data[..to], old(data[..from]) + Zeros(to - from);
    forall i | 0 <= i < to
      ensures now[i] == was[i]
    {}
  }

  class Sds {
    var flags: int    // three low bits: header type; type 5 keeps its length in the high bits
    var hlen: int     // `len` of the header struct (unused by type 5)
    var halloc: int   // `alloc` of the header struct (unused by type 5)
    var data: array<char>
    ghost var moves: nat  // how many times sdsMakeRoomFor reallocated

    // ---- sds.h accessors -------------------------------------------------

    function Kind(): int
      reads this
    {
      flags % 8
    }

    /** sdslen */
    function Len(): int
      reads this
    {
      if Kind() == SDS_TYPE_5 then flags / 8 else hlen
    }

    /** sdsalloc */
    function Alloc(): int
      reads this
    {
      if Kind() == SDS_TYPE_5 then flags / 8 else halloc
    }

    /** sdsavail */
    function Avail(): int
      reads this
    {
      if Kind() == SDS_TYPE_5 then 0 else halloc - hlen
    }

    /** The header is consistent with the allocation. */
    ghost predicate Sound()
      reads this, data
    {
      && 0 <= flags < 256 && Kind() <= SDS_TYPE_64
      && 0 <= Len() <= Alloc() < Width(Kind())
      && Alloc() < data.Length
    }

    /** ... and the string is terminated, as every string is between calls. */
    ghost predicate Valid()
      reads this, data
    {
      Sound() && data[Len()] == NUL
    }

    ghost function Content(): string
      reads this, data
      requires Sound()
    {
      data[..Len()]
    }

    lemma ContentLength()
      requires Valid()
      ensures |Content()| == Len()
    {}

    /** sdssetlen: the store keeps only the bits the field has. */
    method SetLen(newlen: nat)
      requires 0 <= flags < 256 && Kind() <= SDS_TYPE_64
      modifies this`flags, this`hlen
      ensures 0 <= flags < 256 && Kind() == old(Kind())
      ensures Len() == Stored(newlen, Kind())
      ensures Kind() != SDS_TYPE_5 ==> Alloc() == old(Alloc())
    {
      if Kind() == SDS_TYPE_5 {
        flags := ShortFlags(newlen);
      } else {
        hlen := Stored(newlen, Kind());
      }
    }

    /** sdsinclen */
    method IncLen(inc: nat)
      requires 0 <= flags < 256 && Kind() <= SDS_TYPE_64 && Len() >= 0
      modifies this`flags, this`hlen
      ensures 0 <= flags < 256 && Kind() == old(Kind())
      ensures Len() == Stored(old(Len()) + inc, Kind())
      ensures Kind() != SDS_TYPE_5 ==> Alloc() == old(Alloc())
    {
      if Kind() == SDS_TYPE_5 {
        var newlen := (flags / 8 + inc) % 256;
        StoredShort(flags / 8 + inc);
        hide Stored, ShortFlags;
        flags := ShortFlags(newlen);
      } else {
        hlen := Stored(hlen + inc, Kind());
      }
    }

    /** sdssetalloc */
    method SetAlloc(newalloc: nat)
      requires 0 <= flags < 256 && Kind() <= SDS_TYPE_64
      modifies this`halloc
      ensures Kind() != SDS_TYPE_5 ==> Alloc() == Stored(newalloc, Kind())
    {
      if Kind() != SDS_TYPE_5 {
        halloc := Stored(newalloc, Kind());
      }
    }

    // ---- sds.c -----------------------------------------------------------

    /** sdsnewlen with a non-null init. */
    constructor NewLen(init: string)
      requires |init| + 18 <= SIZE_MAX
      ensures Valid() && fresh(data)
      ensures Content() == init
      ensures Alloc() == |init| && Avail() == 0 && moves == 0
      ensures Kind() == (if init == "" then SDS_TYPE_8 else ReqType(|init|)) && data.Length == |init| + 1
    {
      var kind := ReqType(|init|);
      if kind == SDS_TYPE_5 && |init| == 0 {
        kind := SDS_TYPE_8;
      }
      flags := if kind == SDS_TYPE_5 then ShortFlags(|init|) else kind;
      hlen := Stored(|init|, kind);
      halloc := Stored(|init|, kind);
      var freshData := new char[|init| + 1](_ => NUL);
      data := freshData;
      moves := 0;
      new;
      forall i | 0 <= i < |init| { data[i] := init[i]; }
      data[|init|] := NUL;
      assert Kind() == kind && Len() == |init|;
    }

    /** sdsnewlen with a null init: the whole allocation is cleared. */
    constructor NewZeroed(initlen: nat)
      requires initlen + 18 <= SIZE_MAX
      ensures Valid() && fresh(data)
      ensures Content() == Zeros(initlen)
      ensures Alloc() == initlen && Avail() == 0 && moves == 0
      ensures Kind() == (if initlen == 0 then SDS_TYPE_8 else ReqType(initlen)) && data.Length == initlen + 1
    {
      var kind := ReqType(initlen);
      if kind == SDS_TYPE_5 && initlen == 0 {
        kind := SDS_TYPE_8;
      }
      flags := if kind == SDS_TYPE_5 then ShortFlags(initlen) else kind;
      hlen := Stored(initlen, kind);
      halloc := Stored(initlen, kind);
      data := new char[initlen + 1](_ => NUL);
      moves := 0;
      new;
      assert Kind() == kind && Len() == initlen;
    }

    /** The realloc (same header) or move (new header) tail of sdsMakeRoomFor and
        sdsRemoveFreeSpace: at least the string and its terminator are kept. */
    method Reallocate(kind: int, capacity: nat)
      requires Sound() && SDS_TYPE_5 <= kind <= SDS_TYPE_64
      requires Len() <= capacity < Width(kind)
      requires kind == SDS_TYPE_5 ==> capacity == Len()
      modifies this`flags, this`hlen, this`halloc, this`data
      ensures Sound() && (old(Valid()) ==> Valid()) && fresh(data)
      ensures Content() == old(Content())
      ensures Kind() == kind && Alloc() == capacity && data.Length == capacity + 1
    {
      hide Stored, ShortFlags;
      var oldkind := Kind();
      var len := Len();
      var newdata := CopyOf(data, len, capacity);
      assert newdata[..len] == data[..len];
      data := newdata;
      if oldkind != kind {
        flags := kind;
        SetLen(len);
      }
      SetAlloc(capacity);
    }

    /** sdsMakeRoomFor: room for addlen more bytes, content untouched. */
    method MakeRoomFor(addlen: nat)
      requires Sound() && Allocatable(Len() + addlen)
      modifies this
      ensures Sound() && (old(Valid()) ==> Valid()) && (data == old(data) || fresh(data))
      ensures Content() == old(Content())
      ensures addlen > 0 ==> Alloc() >= Len() + addlen
      ensures if old(Avail()) >= addlen
              then unchanged(this)
              else Kind() != SDS_TYPE_5 && Alloc() == Grown(old(Len()) + addlen) && moves == old(moves) + 1
    {
      var avail := Avail();
      if avail >= addlen {
        return;
      }
      var newlen := Len() + addlen;
      if newlen < SDS_MAX_PREALLOC {
        newlen := newlen * 2;
      } else {
        newlen := newlen + SDS_MAX_PREALLOC;
      }
      var kind := ReqType(newlen);
      if kind == SDS_TYPE_5 {
        kind := SDS_TYPE_8;
      }
      Reallocate(kind, newlen);
      moves := moves + 1;
    }

    /** sdsRemoveFreeSpace */
    method RemoveFreeSpace()
      requires Valid() && Len() + 18 <= SIZE_MAX
      modifies this
      ensures Valid() && fresh(data)
      ensures Content() == old(Content()) && Alloc() == Len()
      ensures Kind() == ReqType(Len()) && moves == old(moves) && data.Length == Len() + 1
    {
      var len := Len();
      var kind := ReqType(len);
      Reallocate(kind, len);
    }

    /** The assertion of sdsIncrLen. For type 5 it knows only the width of the field. */
    predicate IncrAsserted(incr: int)
      reads this
    {
      if Kind() == SDS_TYPE_5 then (incr > 0 && Len() + incr < 32) || (incr < 0 && Len() >= -incr)
      else (incr >= 0 && Alloc() - Len() >= incr) || (incr < 0 && Len() >= -incr)
    }

    /** An asserted increment leaves room for the terminator for every wider header. For a
        type 5 string in a buffer of just its text and terminator, which is how sdsnewlen
        and sdsRemoveFreeSpace leave it, it does if and only if it is negative. */
    lemma IncrementInside(incr: int)
      requires Valid() && IncrAsserted(incr)
      requires Kind() == SDS_TYPE_5 ==> data.Length == Len() + 1
      ensures 0 <= Len() + incr
      ensures Len() + incr < data.Length <==> Kind() != SDS_TYPE_5 || incr < 0
    {}

    /** sdsIncrLen, after the caller wrote past the end (incr > 0) or to cut the tail. */
    method IncrLen(incr: int)
      requires Valid() && IncrAsserted(incr)
      requires Kind() == SDS_TYPE_5 ==> Len() + incr < data.Length
      modifies this, data
      ensures Valid() && data == old(data) && moves == old(moves)
      ensures Content() == old(data[..Len() + incr])
      ensures Kind() == old(Kind())
    {
      var len: int;
      if Kind() == SDS_TYPE_5 {
        var oldlen := flags / 8;
        flags := ShortFlags(oldlen + incr);
        len := oldlen + incr;
      } else {
        hlen := Stored(hlen + incr, Kind());
        len := hlen;
      }
      assert len == old(Len()) + incr;
      data[len] := NUL;
      assert data[..len] == old(data[..Len() + incr]);
    }

    /** sdsgrowzero */
    method GrowZero(len: nat)
      requires Valid() && Allocatable(len)
      modifies this, data
      ensures Valid() && (data == old(data) || fresh(data))
      ensures Content() == old(Content()) + Zeros(Max(0, len - old(Len())))
    {
      var curlen := Len();
      if len <= curlen {
        return;
      }
      MakeRoomFor(len - curlen);
      FillZeros(data, curlen, len);
      SetLen(len);
    }

    /** The memcpy / sdssetlen / terminator tail of sdscatlen and sdscpylen. */
    method Put(at: nat, t: string)
      requires Valid() && at <= Len() && at + |t| <= Alloc()
      modifies this`flags, this`hlen, data
      ensures Valid() && Content() == old(Content())[..at] + t
      ensures Kind() == old(Kind()) && (Kind() != SDS_TYPE_5 ==> Alloc() == old(Alloc()))
    {
      forall i | 0 <= i < |t| { data[at + i] := t[i]; }
      SetLen(at + |t|);
      data[at + |t|] := NUL;
      assert data[..at] == old(Content())[..at];
      assert data[at..at + |t|] == t;
    }

    /** sdscatlen */
    method CatLen(t: string)
      requires Valid() && Allocatable(Len() + |t|)
      modifies this, data
      ensures Valid() && (data == old(data) || fresh(data))
      ensures Content() == old(Content()) + t
      ensures moves == old(moves) + if old(Avail()) >= |t| then 0 else 1
      ensures old(Avail()) >= |t| ==> data == old(data) && (old(Kind()) != SDS_TYPE_5 ==> Alloc() == old(Alloc()))
      ensures old(Avail()) >= |t| ==> Kind() == old(Kind())
      ensures old(Avail()) < |t| ==> Kind() != SDS_TYPE_5 && Alloc() == Grown(old(Len()) + |t|)
    {
      var curlen := Len();
      MakeRoomFor(|t|);
      Put(curlen, t);
    }

    /** A store of sdscatfmt: bytes at the end and sdsinclen; no terminator yet. */
    method Extend(t: string)
      requires Sound() && Kind() != SDS_TYPE_5 && |t| <= Avail()
      modifies this`flags, this`hlen, data
      ensures Sound() && Content() == old(Content()) + t
      ensures Kind() == old(Kind()) && Alloc() == old(Alloc())
    {
      var i := Len();
      forall k | 0 <= k < |t| { data[i + k] := t[k]; }
      IncLen(|t|);
      assert data[..i] == old(Content());
      assert data[i..i + |t|] == t;
    }

    /** One turn of the sdscatfmt loop: room for at least one byte, then the bytes. */
    method ExtendWithRoom(t: string)
      requires Sound() && Allocatable(Len() + |t| + 1)
      modifies this, data
      ensures Sound() && (data == old(data) || fresh(data)) && Content() == old(Content()) + t
    {
      if Avail() == 0 {
        MakeRoomFor(1);
      }
      if Avail() < |t| {
        MakeRoomFor(|t|);
      }
      Extend(t);
    }

    /** The switch of sdscatfmt. */
    method FmtTurn(fmt: string, args: seq<string>, f0: nat, k0: nat, ghost text: string) returns (f: nat, k: nat)
      requires Sound() && f0 < |fmt| && FmtAt(fmt, args, f0, k0, Content(), text) && Allocatable(|text| + 1)
      modifies this, data
      ensures Sound() && (data == old(data) || fresh(data))
      ensures f0 < f <= |fmt| && FmtAt(fmt, args, f, k, Content(), text)
    {
      hide Sound, FmtText, FmtOk;
      FmtStep(fmt, args, f0, k0);
      LenOfContent();
      f, k := f0, k0;
      if fmt[f] == '%' {
        var next := fmt[f + 1];
        f := f + 1;
        if next == 's' {
          Assoc3(Content(), args[k], FmtText(fmt[f + 1..], args[k + 1..]));
          ExtendWithRoom(args[k]);
          k := k + 1;
        } else {
          Assoc3(Content(), [next], FmtText(fmt[f + 1..], args[k..]));
          ExtendWithRoom([next]);
        }
      } else {
        Assoc3(Content(), [fmt[f]], FmtText(fmt[f + 1..], args[k..]));
        ExtendWithRoom([fmt[f]]);
      }
      f := f + 1;
    }

    /** sdscatfmt for formats of literals, %s and %%; the write index of the code is an int. */
    method CatFmt(fmt: string, args: seq<string>)
      requires Valid() && FmtOk(fmt, args) && Len() + |FmtText(fmt, args)| <= INT_MAX
      modifies this, data
      ensures Valid() && (data == old(data) || fresh(data))
      ensures Content() == old(Content()) + FmtText(fmt, args)
    {
      SoundWhenValid();
      LenOfContent();
      hide Valid, Sound, FmtText, FmtOk, FmtAt;
      ghost var text := Content() + FmtText(fmt, args);
      FmtStart(fmt, args, Content());
      var f, k := 0, 0;
      while f < |fmt|
        invariant Sound() && (data == old(data) || fresh(data))
        invariant 0 <= f <= |fmt| && 0 <= k && FmtAt(fmt, args, f, k, Content(), text)
      {
        f, k := FmtTurn(fmt, args, f, k, text);
      }
      FmtEnd(fmt, args, k, Content(), text);
      Terminate();
    }

    lemma SoundWhenValid()
      requires Valid()
      ensures Sound()
    {}

    lemma LenOfContent()
      requires Sound()
      ensures |Content()| == Len()
    {}

    /** s[i] = '\0' at the end of sdscatfmt. */
    method Terminate()
      requires Sound()
      modifies data
      ensures Valid() && Content() == old(Content())
    {
      data[Len()] := NUL;
      assert data[..Len()] == old(data[..Len()]);
    }

    /** sdscpylen */
    method CpyLen(t: string)
      requires Valid() && Allocatable(Max(Len(), |t|))
      modifies this, data
      ensures Valid() && (data == old(data) || fresh(data))
      ensures Content() == t
    {
      if Alloc() < |t| {
        MakeRoomFor(|t| - Len());
      }
      Put(0, t);
    }

    /** sdsclear */
    method Clear()
      requires Valid()
      modifies this, data
      ensures Valid() && data == old(data) && Content() == ""
      ensures Kind() == old(Kind()) && (Kind() != SDS_TYPE_5 ==> Alloc() == old(Alloc()))
    {
      SetLen(0);
      data[0] := NUL;
    }

    /** sdstrim */
    method Trim(cset: string)
      requires Valid()
      modifies this, data
      ensures Valid() && data == old(data)
      ensures Content() == TrimRight(TrimLeft(old(Content()), cset), cset)
    {
      ghost var text := Content();
      var sp, ep: int := 0, Len() - 1;
      var end := ep;
      while sp <= end && InSet(data[sp], cset)
        invariant 0 <= sp <= end + 1
        invariant forall k :: 0 <= k < sp ==> InSet(text[k], cset)
      {
        assert text[sp] == data[sp];
        sp := sp + 1;
      }
      assert sp <= end ==> text[sp] == data[sp];
      while ep > sp && InSet(data[ep], cset)
        invariant sp <= ep <= end || (ep == end && sp == end + 1)
        invariant forall k :: ep < k <= end ==> InSet(text[k], cset)
      {
        assert text[ep] == data[ep];
        ep := ep - 1;
      }
      assert sp <= ep ==> text[ep] == data[ep];
      var len := if sp > ep then 0 else ep - sp + 1;
      TrimIs(text, cset, sp, sp + len);
      Keep(sp, len);
    }

    /** The memmove / terminator / sdssetlen tail shared by sdstrim and sdsrange. */
    method Keep(start: nat, newlen: nat)
      requires Valid() && (newlen > 0 ==> start + newlen <= Len())
      modifies this, data
      ensures Valid() && data == old(data) && Kind() == old(Kind())
      ensures Content() == if newlen > 0 then old(Content())[start..start + newlen] else ""
      ensures Kind() != SDS_TYPE_5 ==> Alloc() == old(Alloc())
    {
      if start != 0 && newlen != 0 {
        forall i | 0 <= i < newlen { data[i] := data[start + i]; }
      }
      data[newlen] := NUL;
      SetLen(newlen);
    }

    /** sdsrange; `len` is compared as a signed int, so it must fit one. */
    method Range(start0: int, end0: int)
      requires Valid() && Len() <= INT_MAX
      modifies this, data
      ensures Valid() && data == old(data) && Kind() == old(Kind())
      ensures Content() == Slice(old(Content()), start0, end0)
    {
      var len := Len();
      if len == 0 {
        return;
      }
      var start, end := start0, end0;
      if start < 0 {
        start := len + start;
        if start < 0 { start := 0; }
      }
      if end < 0 {
        end := len + end;
        if end < 0 { end := 0; }
      }
      var newlen := if start > end then 0 else end - start + 1;
      if newlen != 0 {
        if start >= len {
          newlen := 0;
        } else if end >= len {
          end := len - 1;
          newlen := if start > end then 0 else end - start + 1;
        }
      } else {
        start := 0;
      }
      Keep(start, newlen);
    }
  }

  /** The assertion of sdsIncrLen lets an increment of 10 pass on a fresh "abc", whose
      buffer has no byte behind the terminator. */
  method ShortOverrun() returns (s: Sds)
    ensures fresh(s) && s.Valid() && s.Content() == "abc" && s.Kind() == SDS_TYPE_5
    ensures s.IncrAsserted(10) && s.Len() + 10 >= s.data.Length
  {
    s := new Sds.NewLen("abc");
    s.LenOfContent();
  }

  /** Byte-by-byte appending, as the command formatter builds each word. */
  method AppendEach(text: string) returns (s: Sds)
    requires |text| < SDS_MAX_PREALLOC
    ensures fresh(s) && fresh(s.data) && s.Valid()
    ensures s.Content() == text
    ensures Pow2(s.moves) <= |text| + 1
  {
    s := new Sds.NewLen("");
    for i := 0 to |text|
      invariant fresh(s) && fresh(s.data) && s.Valid() && s.Kind() != SDS_TYPE_5
      invariant s.Content() == text[..i]
      invariant Room(s.Len(), s.Alloc(), s.moves) == AppendBytes(i)
    {
      s.CatLen([text[i]]);
      assert text[..i + 1] == text[..i] + [text[i]];
    }
    GrowthBound(|text|);
    assert text[..|text|] == text;
  }
}
