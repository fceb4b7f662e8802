/** Uploaded symbol tables and the macros of src/AdsDEF.h that walk them. */
module SymbolTable {
  import opened Bytes

  const ENTRY_HEADER := 30   // sizeof(AdsSymbolEntry)

  // ---------------------------------------------------------------- the macros

  function EntryLength(m: seq<byte>, p: nat): u32
    requires p + 4 <= |m|
  {
    Get32(m, p)
  }

  /** `PADSNEXTSYMBOLENTRY`: the entry behind this one unless its first word is 0. */
  function NextEntry(m: seq<byte>, p: nat): (r: Option<nat>)
    requires p + 4 <= |m| && p + EntryLength(m, p) + 4 <= |m|
    ensures r.Some? ==> r.value == p + EntryLength(m, p) && EntryLength(m, r.value) != 0
  {
    var q := p + EntryLength(m, p);
    if Get32(m, q) != 0 then Some(q) else None
  }

  /** `PADSSYMBOLNAME`, `PADSSYMBOLTYPE` and `PADSSYMBOLCOMMENT`. */
  function NameAt(m: seq<byte>, p: nat): nat { p + ENTRY_HEADER }

  function TypeAt(m: seq<byte>, p: nat): nat
    requires p + ENTRY_HEADER <= |m|
  {
    p + ENTRY_HEADER + Get16(m, p + 24) + 1
  }

  function CommentAt(m: seq<byte>, p: nat): nat
    requires p + ENTRY_HEADER <= |m|
  {
    p + ENTRY_HEADER + Get16(m, p + 24) + 1 + Get16(m, p + 26) + 1
  }

  /** The C string that starts at an address. */
  function CString(m: seq<byte>, p: nat): seq<byte>
    decreases |m| - p
  {
    if p >= |m| || m[p] == 0 then [] else [m[p]] + CString(m, p + 1)
  }

  /** The walk: where the macros lead from the entry at `p`; None when one of them reads outside the table. */
  function Walk(m: seq<byte>, p: nat): Option<seq<nat>>
    decreases |m| - p
  {
    if p + 4 > |m| || p + EntryLength(m, p) + 4 > |m| then None
    else match NextEntry(m, p)
      case None => Some([p])
      case Some(q) =>
        match Walk(m, q)
        case None => None
        case Some(rest) => Some([p] + rest)
  }

  // ---------------------------------------------------------------- tables

  /** An entry as the PLC describes it; `padding` bytes may follow the three strings. */
  datatype Symbol = Symbol(group: u32, offset: u32, size: u32, dataType: u32, flags: u32,
                           name: seq<byte>, typeName: seq<byte>, comment: seq<byte>, padding: seq<byte>)

  predicate IsText(s: seq<byte>) {
    |s| < 0x1_0000 && forall i :: 0 <= i < |s| ==> s[i] != 0
  }

  function Length(s: Symbol): nat {
    ENTRY_HEADER + |s.name| + |s.typeName| + |s.comment| + 3 + |s.padding|
  }

  predicate WellFormed(s: Symbol) {
    IsText(s.name) && IsText(s.typeName) && IsText(s.comment) && Length(s) < 0x1_0000_0000
  }

  function Words(ws: seq<u32>): (b: seq<byte>)
    ensures |b| == 4 * |ws|
  {
    if ws == [] then [] else Le32(ws[0]) + Words(ws[1..])
  }

  function Halves(hs: seq<u16>): (b: seq<byte>)
    ensures |b| == 2 * |hs|
  {
    if hs == [] then [] else Le16(hs[0]) + Halves(hs[1..])
  }

  /** Strings with their terminators. */
  function Texts(ss: seq<seq<byte>>): seq<byte> {
    if ss == [] then [] else ss[0] + [0] + Texts(ss[1..])
  }

  /** Where string number `i` of them starts. */
  function TextOffset(ss: seq<seq<byte>>, i: nat): nat
    requires i <= |ss|
  {
    if i == 0 then 0 else |ss[0]| + 1 + TextOffset(ss[1..], i - 1)
  }

  function Numbers(s: Symbol): seq<u32>
    requires WellFormed(s)
  {
    [Length(s), s.group, s.offset, s.size, s.dataType, s.flags]
  }

  function Sizes(s: Symbol): seq<u16>
    requires WellFormed(s)
  {
    [|s.name|, |s.typeName|, |s.comment|]
  }

  function Strings(s: Symbol): seq<seq<byte>> {
    [s.name, s.typeName, s.comment]
  }

  function Encode(s: Symbol): (b: seq<byte>)
    requires WellFormed(s)
    ensures |b| == Length(s)
  {
    TextsLength(s.name, s.typeName, s.comment);
    Words(Numbers(s)) + (Halves(Sizes(s)) + (Texts(Strings(s)) + s.padding))
  }

  lemma TextsLength(a: seq<byte>, b: seq<byte>, c: seq<byte>)
    ensures |Texts([a, b, c])| == |a| + |b| + |c| + 3
    ensures TextOffset([a, b, c], 1) == |a| + 1 && TextOffset([a, b, c], 2) == |a| + |b| + 2
  {
    assert [a, b, c][1..] == [b, c] && [b, c][1..] == [c] && [c][1..] == [];
    assert Texts([c]) == c + [0] + [];
    assert TextOffset([b, c], 1) == |b| + 1 + TextOffset([c], 0);
    assert TextOffset([a, b, c], 2) == |a| + 1 + TextOffset([b, c], 1);
  }

  predicate AllWellFormed(table: seq<Symbol>) {
    forall i :: 0 <= i < |table| ==> WellFormed(table[i])
  }

  /** The entries one behind the other and a zero word. */
  function EncodeTable(table: seq<Symbol>): seq<byte>
    requires AllWellFormed(table)
  {
    if table == [] then Le32(0) else Encode(table[0]) + EncodeTable(table[1..])
  }

  /** Where the entries of a table start when the first one is at `p`. */
  function Offsets(table: seq<Symbol>, p: nat): (r: seq<nat>)
    ensures |r| == |table|
  {
    if table == [] then [] else [p] + Offsets(table[1..], p + Length(table[0]))
  }

  /** The memory shows `b` at address `p`. */
  predicate At(m: seq<byte>, p: nat, b: seq<byte>) {
    p + |b| <= |m| && m[p..p + |b|] == b
  }

  // ---------------------------------------------------------------- lemmas

  lemma AtParts(m: seq<byte>, p: nat, a: seq<byte>, b: seq<byte>)
    requires At(m, p, a + b)
    ensures At(m, p, a) && At(m, p + |a|, b)
  {
    var s := m[p..p + |a + b|];
    assert m[p..p + |a|] == s[..|a|] == a;
    assert m[p + |a|..p + |a| + |b|] == s[|a|..] == b;
  }

  lemma AtBoth(m: seq<byte>, p: nat, q: nat, a: seq<byte>, b: seq<byte>)
    requires q == p + |a| && At(m, p, a + b)
    ensures At(m, p, a) && At(m, q, b)
  {
    AtParts(m, p, a, b);
  }

  lemma AtWord(m: seq<byte>, p: nat, v: u32)
    requires At(m, p, Le32(v))
    ensures Get32(m, p) == v
  {
    Le32Get32(m, p, v);
  }

  lemma AtHalf(m: seq<byte>, p: nat, v: u16)
    requires At(m, p, Le16(v))
    ensures Get16(m, p) == v
  {
  }

  lemma {:induction false} WordAt(m: seq<byte>, p: nat, ws: seq<u32>, i: nat)
    requires At(m, p, Words(ws)) && i < |ws|
    ensures p + 4 * i + 4 <= |m| && Get32(m, p + 4 * i) == ws[i]
    decreases |ws|
  {
    AtParts(m, p, Le32(ws[0]), Words(ws[1..]));
    if i == 0 {
      AtWord(m, p, ws[0]);
    } else {
      WordAt(m, p + 4, ws[1..], i - 1);
    }
  }

  lemma {:induction false} HalfAt(m: seq<byte>, p: nat, hs: seq<u16>, i: nat)
    requires At(m, p, Halves(hs)) && i < |hs|
    ensures p + 2 * i + 2 <= |m| && Get16(m, p + 2 * i) == hs[i]
    decreases |hs|
  {
    AtParts(m, p, Le16(hs[0]), Halves(hs[1..]));
    if i == 0 {
      AtHalf(m, p, hs[0]);
    } else {
      HalfAt(m, p + 2, hs[1..], i - 1);
    }
  }

  lemma {:induction false} TextAt(m: seq<byte>, p: nat, ss: seq<seq<byte>>, i: nat)
    requires At(m, p, Texts(ss)) && i < |ss| && forall j :: 0 <= j < |ss| ==> IsText(ss[j])
    ensures CString(m, p + TextOffset(ss, i)) == ss[i]
    decreases |ss|
  {
    AtParts(m, p, ss[0] + [0], Texts(ss[1..]));
    if i == 0 {
      CStringAt(m, p, ss[0]);
    } else {
      TextAt(m, p + |ss[0]| + 1, ss[1..], i - 1);
    }
  }

  /** The parts of an entry in memory. */
  lemma EntryParts(m: seq<byte>, p: nat, s: Symbol)
    requires WellFormed(s) && At(m, p, Encode(s))
    ensures p + Length(s) <= |m|
    ensures At(m, p, Words(Numbers(s))) && At(m, p + 24, Halves(Sizes(s))) && At(m, p + 30, Texts(Strings(s)))
  {
    TextsLength(s.name, s.typeName, s.comment);
    AtParts(m, p, Words(Numbers(s)), Halves(Sizes(s)) + (Texts(Strings(s)) + s.padding));
    AtParts(m, p + 24, Halves(Sizes(s)), Texts(Strings(s)) + s.padding);
    AtParts(m, p + 30, Texts(Strings(s)), s.padding);
  }

  lemma LengthSeen(m: seq<byte>, p: nat, s: Symbol)
    requires WellFormed(s) && At(m, p, Encode(s))
    ensures p + Length(s) <= |m| && EntryLength(m, p) == Length(s)
  {
    EntryParts(m, p, s);
    WordAt(m, p, Numbers(s), 0);
  }

  /** The numbers that the packed structure shows for an entry. */
  lemma NumbersSeen(m: seq<byte>, p: nat, s: Symbol)
    requires WellFormed(s) && At(m, p, Encode(s))
    ensures p + Length(s) <= |m| && EntryLength(m, p) == Length(s)
    ensures Get32(m, p + 4) == s.group && Get32(m, p + 8) == s.offset && Get32(m, p + 12) == s.size
    ensures Get32(m, p + 16) == s.dataType && Get32(m, p + 20) == s.flags
    ensures Get16(m, p + 24) == |s.name| && Get16(m, p + 26) == |s.typeName| && Get16(m, p + 28) == |s.comment|
  {
    LengthSeen(m, p, s);
    EntryParts(m, p, s);
    SizesSeen(m, p, s);
    WordAt(m, p, Numbers(s), 1);
    WordAt(m, p, Numbers(s), 2);
    WordAt(m, p, Numbers(s), 3);
    WordAt(m, p, Numbers(s), 4);
    WordAt(m, p, Numbers(s), 5);
  }

  lemma SizesSeen(m: seq<byte>, p: nat, s: Symbol)
    requires WellFormed(s) && At(m, p, Encode(s))
    ensures p + ENTRY_HEADER <= |m| && At(m, p + ENTRY_HEADER, Texts(Strings(s)))
    ensures Get16(m, p + 24) == |s.name| && Get16(m, p + 26) == |s.typeName| && Get16(m, p + 28) == |s.comment|
  {
    EntryParts(m, p, s);
    HalfAt(m, p + 24, Sizes(s), 0);
    HalfAt(m, p + 24, Sizes(s), 1);
    HalfAt(m, p + 24, Sizes(s), 2);
  }

  lemma {:induction false} CStringAt(m: seq<byte>, p: nat, s: seq<byte>)
    requires IsText(s) && At(m, p, s + [0])
    ensures CString(m, p) == s
    decreases |s|
  {
    var t := m[p..p + |s| + 1];
    assert t == s + [0];
    assert m[p] == t[0];
    if s != [] {
      assert m[p + 1..p + 1 + |s|] == t[1..] == s[1..] + [0];
      CStringAt(m, p + 1, s[1..]);
    }
  }

  /**
    In the entry at `p` the three macros point to three disjoint ranges inside
    the entry, and the C strings there are the strings that were encoded.
   */
  lemma {:induction false} StringsSeen(m: seq<byte>, p: nat, s: Symbol)
    requires WellFormed(s) && At(m, p, Encode(s))
    ensures p + ENTRY_HEADER <= |m|
    ensures p + ENTRY_HEADER == NameAt(m, p)
    ensures NameAt(m, p) + |s.name| + 1 == TypeAt(m, p) && TypeAt(m, p) + |s.typeName| + 1 == CommentAt(m, p)
    ensures CommentAt(m, p) + |s.comment| + 1 <= p + EntryLength(m, p)
    ensures CString(m, NameAt(m, p)) == s.name
    ensures CString(m, TypeAt(m, p)) == s.typeName
    ensures CString(m, CommentAt(m, p)) == s.comment
  {
    LengthSeen(m, p, s);
    SizesSeen(m, p, s);
    TextsAt(m, NameAt(m, p), TypeAt(m, p), CommentAt(m, p), s.name, s.typeName, s.comment);
  }

  lemma {:induction false} TextsAt(m: seq<byte>, qa: nat, qb: nat, qc: nat, a: seq<byte>, b: seq<byte>, c: seq<byte>)
    requires IsText(a) && IsText(b) && IsText(c) && At(m, qa, Texts([a, b, c]))
    requires qb == qa + |a| + 1 && qc == qb + |b| + 1
    ensures CString(m, qa) == a && CString(m, qb) == b && CString(m, qc) == c
  {
    TextsLength(a, b, c);
    var ss := [a, b, c];
    TextAt(m, qa, ss, 0);
    TextAt(m, qa, ss, 1);
    TextAt(m, qa, ss, 2);
    assert qa + TextOffset(ss, 0) == qa && qa + TextOffset(ss, 1) == qb && qa + TextOffset(ss, 2) == qc;
  }

  /** Where the table with entry `i` starts. */
  lemma {:induction false} TableAt(m: seq<byte>, p: nat, table: seq<Symbol>, i: nat)
    requires AllWellFormed(table) && At(m, p, EncodeTable(table)) && i < |table|
    ensures At(m, Offsets(table, p)[i], Encode(table[i]))
    decreases |table|
  {
    AtParts(m, p, Encode(table[0]), EncodeTable(table[1..]));
    if i > 0 {
      TableAt(m, p + Length(table[0]), table[1..], i - 1);
    }
  }

  /** The first word of a table is 0 exactly when it has no entry. */
  lemma {:induction false} FirstWord(m: seq<byte>, p: nat, table: seq<Symbol>)
    requires AllWellFormed(table) && At(m, p, EncodeTable(table))
    ensures p + 4 <= |m| && (Get32(m, p) == 0 <==> table == [])
  {
  }

  /** The first entry of a table, and the table behind it. */
  lemma {:induction false} TableParts(m: seq<byte>, p: nat, s: Symbol, rest: seq<Symbol>, q: nat)
    requires WellFormed(s) && AllWellFormed(rest) && q == p + Length(s)
    requires At(m, p, Encode(s) + EncodeTable(rest))
    ensures At(m, q, EncodeTable(rest)) && q + 4 <= |m|
    ensures EntryLength(m, p) == Length(s)
    ensures Get32(m, q) == 0 <==> rest == []
  {
    AtBoth(m, p, q, Encode(s), EncodeTable(rest));
    LengthSeen(m, p, s);
    FirstWord(m, q, rest);
  }

  /** One step of the walk. */
  lemma {:induction false} WalkStep(m: seq<byte>, p: nat, q: nat)
    requires p + 4 <= |m| && q == p + EntryLength(m, p) && q + 4 <= |m|
    ensures Get32(m, q) == 0 ==> Walk(m, p) == Some([p])
    ensures Get32(m, q) != 0 && Walk(m, q).Some? ==> Walk(m, p) == Some([p] + Walk(m, q).value)
  {
  }

  /** The step over an entry of a table. */
  lemma {:induction false} WalkEntry(m: seq<byte>, p: nat, s: Symbol, rest: seq<Symbol>, q: nat)
    requires WellFormed(s) && AllWellFormed(rest) && q == p + Length(s)
    requires At(m, p, Encode(s) + EncodeTable(rest))
    ensures At(m, q, EncodeTable(rest))
    ensures rest == [] ==> Walk(m, p) == Some([p])
    ensures rest != [] && Walk(m, q).Some? ==> Walk(m, p) == Some([p] + Walk(m, q).value)
  {
    TableParts(m, p, s, rest, q);
    WalkStep(m, p, q);
  }

  /** The walk visits every entry of a non-empty table exactly once, in order, and stops at the zero word. */
  lemma {:induction false} WalkVisitsAll(m: seq<byte>, p: nat, table: seq<Symbol>)
    requires AllWellFormed(table) && table != [] && At(m, p, EncodeTable(table))
    ensures Walk(m, p) == Some(Offsets(table, p))
    decreases |table|
  {
    var q, rest := p + Length(table[0]), table[1..];
    assert Offsets(table, p) == [p] + Offsets(rest, q);
    WalkEntry(m, p, table[0], rest, q);
    if rest == [] {
      assert [p] + Offsets(rest, q) == [p];
    } else {
      WalkVisitsAll(m, q, rest);
    }
  }

  /** Reading the entry at `q` with the packed structure and the macros gives the symbol `s`. */
  predicate Shows(m: seq<byte>, q: nat, s: Symbol) {
    && q + ENTRY_HEADER <= |m| && EntryLength(m, q) == Length(s)
    && Get32(m, q + 4) == s.group && Get32(m, q + 8) == s.offset && Get32(m, q + 12) == s.size
    && Get32(m, q + 16) == s.dataType && Get32(m, q + 20) == s.flags
    && Get16(m, q + 24) == |s.name| && Get16(m, q + 26) == |s.typeName| && Get16(m, q + 28) == |s.comment|
    && CString(m, NameAt(m, q)) == s.name && CString(m, TypeAt(m, q)) == s.typeName
         && CString(m, CommentAt(m, q)) == s.comment
  }

  lemma EntrySeen(m: seq<byte>, q: nat, s: Symbol)
    requires WellFormed(s) && At(m, q, Encode(s))
    ensures Shows(m, q, s)
  {
    NumbersSeen(m, q, s);
    StringsSeen(m, q, s);
  }

  /** Walking the table and reading each entry gives back the symbols, in order. */
  lemma {:induction false} TableRoundTrip(m: seq<byte>, p: nat, table: seq<Symbol>, i: nat)
    requires AllWellFormed(table) && i < |table| && At(m, p, EncodeTable(table))
    ensures Walk(m, p).Some? && |Walk(m, p).value| == |table|
    ensures Shows(m, Walk(m, p).value[i], table[i])
  {
    WalkVisitsAll(m, p, table);
    TableAt(m, p, table, i);
    EntrySeen(m, Offsets(table, p)[i], table[i]);
  }

  /** In any memory at all the walk moves strictly forward, so it ends or leaves the table. */
  lemma {:induction false} WalkMovesForward(m: seq<byte>, p: nat, i: nat, j: nat)
    requires Walk(m, p).Some? && i < j < |Walk(m, p).value|
    ensures p <= Walk(m, p).value[i] < Walk(m, p).value[j] < |m|
    decreases |m| - p
  {
    var q := NextEntry(m, p).value;
    var rest := Walk(m, q).value;
    assert Walk(m, p).value == [p] + rest;
    assert rest[0] == q;
    assert p < q;
    if i > 0 {
      WalkMovesForward(m, q, i - 1, j - 1);
    } else if j > 1 {
      WalkMovesForward(m, q, 0, j - 1);
    }
  }
}
