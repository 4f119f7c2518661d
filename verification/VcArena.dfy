/** The output buffer of the flow validate/create parser (cmdline_flow.c): records grow upwards from
    its header, the blocks they describe grow downwards from its end. */
module VcArena {
  import opened Common
  import opened BitFill
  import opened Prefix

  // ---------- addresses and records ----------

  function AlignFloor(x: nat): (r: nat)
    ensures r % 8 == 0 && r <= x < r + 8
  {
    x - x % 8
  }

  function AlignCeil(x: nat): (r: nat)
    ensures r % 8 == 0 && x <= r < x + 8
  {
    AlignFloor(x + 7)
  }

  /** A 64-bit word in memory, least significant byte first. */
  function Word(x: nat): (w: seq<byte>)
    ensures |w| == 8
  {
    seq(8, i requires 0 <= i < 8 => Shift(x, 8 * i) % 256)
  }

  lemma {:induction false} ShiftDivides(x: nat, k: nat)
    ensures Shift(x, k) == x / Pow2(k)
  {
    if k > 0 {
      ShiftDivides(x, k - 1);
      HalfAgain(x, Pow2(k - 1));
    }
  }

  lemma HalfAgain(x: nat, p: nat)
    requires p > 0
    ensures x / p / 2 == x / (2 * p)
  {
    var q, r := x / p, x % p;
    var h := q / 2;
    assert x == p * q + r;
    if q == 2 * h {
      DivModUnique(x, 2 * p, h, r);
    } else {
      assert q == 2 * h + 1;
      DivModUnique(x, 2 * p, h, p + r);
    }
  }

  lemma {:induction false} WordUpTo(x: nat, n: nat)
    requires n <= 8
    ensures LowBytes(Word(x), false, n) == x % Pow2(8 * n)
  {
    hide Pow2, Shift;
    if n == 0 {
      PowZero(x);
    } else {
      WordUpTo(x, n - 1);
      ShiftDivides(x, 8 * (n - 1));
      PowBytes(n - 1);
      var p := Pow2(8 * (n - 1));
      var q, r := x / p, x % p;
      assert p * q == (256 * p) * (q / 256) + p * (q % 256);
      MulGap(p, q % 256, 256);
      DivModUnique(x, 256 * p, q / 256, r + p * (q % 256));
    }
  }

  lemma PowZero(x: nat)
    ensures x % Pow2(0) == 0
  {
  }

  /** A pointer written as a word reads back as itself. */
  lemma WordRead(x: nat)
    requires x < Pow2(64)
    ensures FieldValue(Word(x), false) == x
  {
    hide Pow2, LowBytes, FieldValue;
    WordUpTo(x, 8);
    LowBytesAll(Word(x), false);
    DivModUnique(x, Pow2(64), 0, x);
  }

  /** A record of 64-bit fields: [type, spec, last, mask] for an item, [type, conf] for an action. */
  function Record(words: seq<nat>): (r: seq<byte>)
    ensures |r| == 8 * |words|
  {
    if words == [] then [] else Record(words[..|words| - 1]) + Word(words[|words| - 1])
  }

  // ---------- what the buffer holds ----------

  /** A parsed item or action: the address and fields of its record, the address and bytes of its block. */
  datatype Entry = Entry(slot: nat, words: seq<nat>, at: nat, content: seq<byte>) {
    function SlotEnd(): nat {
      slot + 8 * |words|
    }

    function End(): nat {
      at + |content|
    }
  }

  /** Entry by entry, records upwards below `data`, blocks downwards from `top` to `data`. */
  ghost predicate Layout(entries: seq<Entry>, low: nat, data: nat, top: nat) {
    && (forall k :: 0 <= k < |entries| ==>
         && low <= entries[k].slot && entries[k].SlotEnd() <= data
         && data <= entries[k].at && entries[k].End() <= top && entries[k].at % 8 == 0)
    && (forall j, k :: 0 <= j < k < |entries| ==>
         entries[j].SlotEnd() <= entries[k].slot && entries[k].End() <= entries[j].at)
  }

  /** A stretch of the buffer. */
  datatype Region = Region(at: nat, size: nat)

  function Slot(e: Entry): Region {
    Region(e.slot, 8 * |e.words|)
  }

  function Block(e: Entry): Region {
    Region(e.at, |e.content|)
  }

  predicate Apart(r: Region, s: Region) {
    r.at + r.size <= s.at || s.at + s.size <= r.at
  }

  predicate Inside(r: Region, s: Region) {
    s.at <= r.at && r.at + r.size <= s.at + s.size
  }

  ghost predicate Disjoint(entries: seq<Entry>, low: nat, top: nat) {
    && (forall e :: e in entries ==>
         && low <= e.slot && e.SlotEnd() <= top && low <= e.at && e.End() <= top && e.at % 8 == 0)
    && (forall j, k :: 0 <= j < |entries| && 0 <= k < |entries| ==>
         && Apart(Slot(entries[j]), Block(entries[k]))
         && (j != k ==> Apart(Slot(entries[j]), Slot(entries[k])) && Apart(Block(entries[j]), Block(entries[k]))))
  }

  /** Records and blocks are pairwise disjoint and lie between the header and the end of the buffer. */
  lemma LayoutDisjoint(entries: seq<Entry>, low: nat, data: nat, top: nat, j: nat, k: nat)
    requires Layout(entries, low, data, top) && j < |entries| && k < |entries|
    ensures Apart(Slot(entries[j]), Block(entries[k]))
    ensures j != k ==> Apart(Slot(entries[j]), Slot(entries[k])) && Apart(Block(entries[j]), Block(entries[k]))
    ensures low <= Slot(entries[k]).at && Slot(entries[k]).at + Slot(entries[k]).size <= top
    ensures low <= Block(entries[k]).at && Block(entries[k]).at + Block(entries[k]).size <= top
  {
    if j < k {
      assert entries[j].SlotEnd() <= entries[k].slot && entries[k].End() <= entries[j].at;
    } else if k < j {
      assert entries[k].SlotEnd() <= entries[j].slot && entries[j].End() <= entries[k].at;
    }
  }

  lemma LayoutIsDisjoint(entries: seq<Entry>, low: nat, data: nat, top: nat)
    requires Layout(entries, low, data, top)
    ensures Disjoint(entries, low, top)
  {
    forall j, k | 0 <= j < |entries| && 0 <= k < |entries|
      ensures Apart(Slot(entries[j]), Block(entries[k]))
      ensures j != k ==> Apart(Slot(entries[j]), Slot(entries[k])) && Apart(Block(entries[j]), Block(entries[k]))
    {
      LayoutDisjoint(entries, low, data, top, j, k);
    }
  }

  /** The bytes at an address. */
  predicate BytesAt(mem: seq<byte>, base: nat, at: nat, x: seq<byte>) {
    base <= at && at - base + |x| <= |mem| && mem[at - base..at - base + |x|] == x
  }

  /** The entry's record and block are what the memory says. */
  predicate Holds(mem: seq<byte>, base: nat, e: Entry) {
    BytesAt(mem, base, e.slot, Record(e.words)) && BytesAt(mem, base, e.at, e.content)
  }

  ghost predicate Represents(mem: seq<byte>, base: nat, entries: seq<Entry>) {
    forall k :: 0 <= k < |entries| ==> Holds(mem, base, entries[k])
  }

  // ---------- writing ----------

  lemma WriteElsewhere(mem: seq<byte>, base: nat, e: Entry, at: nat, x: seq<byte>)
    requires Holds(mem, base, e) && base <= at && at - base + |x| <= |mem|
    requires Apart(Region(at, |x|), Slot(e)) && Apart(Region(at, |x|), Block(e))
    ensures Holds(Put(mem, at - base, x), base, e)
  {
    hide Record, Put;
    PutOutside(mem, at - base, x, e.slot - base, e.SlotEnd() - base);
    PutOutside(mem, at - base, x, e.at - base, e.End() - base);
  }

  lemma WriteElsewhereAll(mem: seq<byte>, base: nat, entries: seq<Entry>, at: nat, x: seq<byte>)
    requires Represents(mem, base, entries) && base <= at && at - base + |x| <= |mem|
    requires forall k :: 0 <= k < |entries| ==>
      Apart(Region(at, |x|), Slot(entries[k])) && Apart(Region(at, |x|), Block(entries[k]))
    ensures Represents(Put(mem, at - base, x), base, entries)
  {
    hide Put, Holds, Apart;
    forall k | 0 <= k < |entries|
      ensures Holds(Put(mem, at - base, x), base, entries[k])
    {
      WriteElsewhere(mem, base, entries[k], at, x);
    }
  }

  /** A new record above the old ones and a zeroed block below them extend what is held. */
  lemma Extend(mem: seq<byte>, base: nat, entries: seq<Entry>, e: Entry, low: nat, data: nat, top: nat)
    requires Represents(mem, base, entries) && Layout(entries, low, data, top)
    requires base <= low && top <= base + |mem|
    requires low <= e.slot && e.SlotEnd() <= e.at && e.End() <= data <= top && e.at % 8 == 0
    requires forall k :: 0 <= k < |entries| ==> entries[k].SlotEnd() <= e.slot
    ensures Layout(entries + [e], low, e.at, top)
    ensures Represents(Put(Put(mem, e.slot - base, Record(e.words)), e.at - base, e.content), base, entries + [e])
  {
    hide Put, Record, Holds;
    WriteElsewhereAll(mem, base, entries, e.slot, Record(e.words));
    var mid := Put(mem, e.slot - base, Record(e.words));
    WriteElsewhereAll(mid, base, entries, e.at, e.content);
    NewHeld(mem, base, e);
  }

  lemma NewHeld(mem: seq<byte>, base: nat, e: Entry)
    requires base <= e.slot && e.SlotEnd() <= e.at && e.End() <= base + |mem|
    ensures Holds(Put(Put(mem, e.slot - base, Record(e.words)), e.at - base, e.content), base, e)
  {
    hide Record, Put;
    var mid := Put(mem, e.slot - base, Record(e.words));
    PutInside(mem, e.slot - base, Record(e.words));
    PutInside(mid, e.at - base, e.content);
    PutOutside(mid, e.at - base, e.content, e.slot - base, e.SlotEnd() - base);
  }

  lemma {:induction false} RecordUpdate(words: seq<nat>, i: nat, x: nat)
    requires i < |words|
    ensures Put(Record(words), 8 * i, Word(x)) == Record(words[i := x])
  {
    hide Word;
    var n := |words| - 1;
    assert words[i := x][..n] == if i < n then words[..n][i := x] else words[..n];
    if i < n {
      RecordUpdate(words[..n], i, x);
    }
  }

  /** A write inside one entry's record or block leaves the other entries alone. */
  lemma OthersHeld(mem: seq<byte>, base: nat, entries: seq<Entry>, k: nat, at: nat, x: seq<byte>,
                   low: nat, data: nat, top: nat)
    requires Represents(mem, base, entries) && Layout(entries, low, data, top) && k < |entries|
    requires base <= at && at - base + |x| <= |mem|
    requires Inside(Region(at, |x|), Slot(entries[k])) || Inside(Region(at, |x|), Block(entries[k]))
    ensures forall j :: 0 <= j < |entries| && j != k ==> Holds(Put(mem, at - base, x), base, entries[j])
  {
    hide Put, Record, Layout, Holds;
    forall j | 0 <= j < |entries| && j != k
      ensures Holds(Put(mem, at - base, x), base, entries[j])
    {
      LayoutDisjoint(entries, low, data, top, k, j);
      LayoutDisjoint(entries, low, data, top, j, k);
      WriteElsewhere(mem, base, entries[j], at, x);
    }
  }

  lemma FieldWritten(mem: seq<byte>, base: nat, e: Entry, i: nat, x: nat)
    requires Holds(mem, base, e) && i < |e.words| && Apart(Slot(e), Block(e))
    ensures e.slot + 8 * i - base + 8 <= |mem|
    ensures Holds(Put(mem, e.slot + 8 * i - base, Word(x)), base, e.(words := e.words[i := x]))
  {
    hide *;
    HoldsMeans(mem, base, e);
    PieceWritten(mem, e.slot - base, e.words, e.at - base, e.content, i, x);
    HoldsAt(Put(mem, e.slot - base + 8 * i, Word(x)), base, e.(words := e.words[i := x]));
  }

  lemma PieceWritten(mem: seq<byte>, s: nat, words: seq<nat>, b: nat, y: seq<byte>, i: nat, x: nat)
    requires s + 8 * |words| <= |mem| && mem[s..s + 8 * |words|] == Record(words) && i < |words|
    requires b + |y| <= |mem| && mem[b..b + |y|] == y && (s + 8 * |words| <= b || b + |y| <= s)
    ensures Put(mem, s + 8 * i, Word(x))[s..s + 8 * |words|] == Record(words[i := x])
    ensures Put(mem, s + 8 * i, Word(x))[b..b + |y|] == y
  {
    hide *;
    RecordWritten(mem, s, words, i, x);
    BlockKept(mem, s + 8 * i, Word(x), b, y);
  }

  lemma BlockKept(mem: seq<byte>, at: nat, x: seq<byte>, b: nat, y: seq<byte>)
    requires b + |y| <= |mem| && mem[b..b + |y|] == y && at + |x| <= |mem| && (at + |x| <= b || b + |y| <= at)
    ensures Put(mem, at, x)[b..b + |y|] == y
  {
    hide Put;
    PutOutside(mem, at, x, b, b + |y|);
  }

  lemma HoldsMeans(mem: seq<byte>, base: nat, e: Entry)
    requires Holds(mem, base, e)
    ensures base <= e.slot && e.slot - base + 8 * |e.words| <= |mem|
    ensures base <= e.at && e.at - base + |e.content| <= |mem|
    ensures mem[e.slot - base..e.slot - base + 8 * |e.words|] == Record(e.words)
    ensures mem[e.at - base..e.at - base + |e.content|] == e.content
    ensures Apart(Slot(e), Block(e)) ==> e.slot + 8 * |e.words| <= e.at || e.at + |e.content| <= e.slot
  {
    hide Record;
  }

  lemma HoldsAt(mem: seq<byte>, base: nat, e: Entry)
    requires base <= e.slot && e.slot - base + 8 * |e.words| <= |mem|
    requires base <= e.at && e.at - base + |e.content| <= |mem|
    requires mem[e.slot - base..e.slot - base + 8 * |e.words|] == Record(e.words)
    requires mem[e.at - base..e.at - base + |e.content|] == e.content
    ensures Holds(mem, base, e)
  {
    hide Record;
  }

  lemma RecordWritten(mem: seq<byte>, s: nat, words: seq<nat>, i: nat, x: nat)
    requires s + 8 * |words| <= |mem| && mem[s..s + 8 * |words|] == Record(words) && i < |words|
    ensures Put(mem, s + 8 * i, Word(x))[s..s + 8 * |words|] == Record(words[i := x])
  {
    hide Put, Record, Word;
    PutWithin(mem, s + 8 * i, Word(x), s, s + 8 * |words|);
    RecordUpdate(words, i, x);
    assert s + 8 * i - s == 8 * i;
  }

  lemma ContentWritten(mem: seq<byte>, base: nat, e: Entry, off: nat, x: seq<byte>)
    requires Holds(mem, base, e) && off + |x| <= |e.content| && Apart(Slot(e), Block(e))
    ensures e.at + off - base + |x| <= |mem|
    ensures Holds(Put(mem, e.at + off - base, x), base, e.(content := Put(e.content, off, x)))
  {
    hide Put, Record;
    var s, b := e.slot - base, e.at - base;
    var after := Put(mem, b + off, x);
    PutWithin(mem, b + off, x, b, b + |e.content|);
    PutOutside(mem, b + off, x, s, s + 8 * |e.words|);
    assert after[b..b + |e.content|] == Put(e.content, off, x);
    assert e.at + off - base == b + off;
  }

  lemma SameLayout(entries: seq<Entry>, k: nat, e: Entry, low: nat, data: nat, top: nat)
    requires Layout(entries, low, data, top) && k < |entries|
    requires Slot(e) == Slot(entries[k]) && Block(e) == Block(entries[k])
    ensures Layout(entries[k := e], low, data, top)
  {
  }

  /** Storing a field of an entry's record changes that field of that entry and nothing else. */
  lemma SetField(mem: seq<byte>, base: nat, entries: seq<Entry>, k: nat, i: nat, x: nat,
                 low: nat, data: nat, top: nat)
    requires Represents(mem, base, entries) && Layout(entries, low, data, top) && base <= low && top <= base + |mem|
    requires k < |entries| && i < |entries[k].words|
    ensures base <= entries[k].slot && entries[k].slot + 8 * i - base + 8 <= |mem|
    ensures var e := entries[k]; var now := entries[k := e.(words := e.words[i := x])];
      && Layout(now, low, data, top)
      && Represents(Put(mem, e.slot + 8 * i - base, Word(x)), base, now)
  {
    hide Put, Record, Word, Layout, Holds;
    var e := entries[k];
    LayoutDisjoint(entries, low, data, top, k, k);
    var at := e.slot + 8 * i;
    var after := Put(mem, at - base, Word(x));
    var e' := e.(words := e.words[i := x]);
    FieldWritten(mem, base, e, i, x);
    OthersHeld(mem, base, entries, k, at, Word(x), low, data, top);
    SameLayout(entries, k, e', low, data, top);
  }

  /** Storing bytes inside an entry's block changes those bytes of that block and nothing else. */
  lemma SetContent(mem: seq<byte>, base: nat, entries: seq<Entry>, k: nat, off: nat, x: seq<byte>,
                   low: nat, data: nat, top: nat)
    requires Represents(mem, base, entries) && Layout(entries, low, data, top) && base <= low && top <= base + |mem|
    requires k < |entries| && off + |x| <= |entries[k].content|
    ensures base <= entries[k].at && entries[k].at + off - base + |x| <= |mem|
    ensures var e := entries[k]; var now := entries[k := e.(content := Put(e.content, off, x))];
      && Layout(now, low, data, top)
      && Represents(Put(mem, e.at + off - base, x), base, now)
  {
    hide Put, Record, Layout, Holds;
    var e := entries[k];
    LayoutDisjoint(entries, low, data, top, k, k);
    var at := e.at + off;
    ContentWritten(mem, base, e, off, x);
    OthersHeld(mem, base, entries, k, at, x, low, data, top);
    SameLayout(entries, k, e.(content := Put(e.content, off, x)), low, data, top);
  }

  // ---------- the two arrays ----------

  const ITEM_SIZE: nat := 32
  const ACTION_SIZE: nat := 16

  /** The bytes an element's block takes: three objects for an item, one for an action. */
  function Need(item: bool, size: nat): nat {
    if item then size * 3 else size
  }

  /** The entry an element becomes: its record in `slot`, its zeroed block right below `data`. */
  function NewEntry(item: bool, slot: nat, data: nat, typ: nat, size: nat): Entry
    requires Need(item, size) <= data
  {
    var at := AlignFloor(data - Need(item, size));
    var words := if item then [typ, 0, 0, 0] else [typ, if size != 0 then at else 0];
    Entry(slot, words, at, Zeros(Need(item, size)))
  }

  lemma NewEntryIs(item: bool, slot: nat, data: nat, typ: nat, size: nat)
    requires Need(item, size) <= data
    ensures var at := AlignFloor(data - Need(item, size));
      NewEntry(item, slot, data, typ, size)
      == Entry(slot, if item then [typ, 0, 0, 0] else [typ, if size != 0 then at else 0], at, Zeros(Need(item, size)))
    ensures size * 3 / 3 == size
  {
  }

  function SlotAt(pattern: nat, patternN: nat, actions: nat, k: nat): nat {
    if k < patternN then pattern + ITEM_SIZE * k else actions + ACTION_SIZE * (k - patternN)
  }

  /** The entries are `patternN` items from `pattern` on, then `actionsN` actions from `actions` on. */
  ghost predicate Arrays(entries: seq<Entry>, pattern: nat, patternN: nat, actions: nat, actionsN: nat) {
    && |entries| == patternN + actionsN
    && forall k {:trigger entries[k]} :: 0 <= k < |entries| ==>
      && entries[k].slot == SlotAt(pattern, patternN, actions, k)
      && |entries[k].words| == if k < patternN then 4 else 2
  }

  lemma ItemAdded(entries: seq<Entry>, pattern: nat, n: nat, e: Entry, low: nat)
    requires Arrays(entries, pattern, n, 0, 0) && low <= pattern
    requires e.slot == pattern + ITEM_SIZE * n && |e.words| == 4
    ensures Arrays(entries + [e], pattern, n + 1, 0, 0) && low <= e.slot
    ensures forall k :: 0 <= k < |entries| ==> entries[k].SlotEnd() <= e.slot
  {
  }

  lemma ActionAdded(entries: seq<Entry>, pattern: nat, patternN: nat, actions: nat, n: nat, e: Entry, low: nat)
    requires Arrays(entries, pattern, patternN, actions, n) && low <= pattern
    requires pattern + ITEM_SIZE * patternN <= actions
    requires e.slot == actions + ACTION_SIZE * n && |e.words| == 2
    ensures Arrays(entries + [e], pattern, patternN, actions, n + 1) && low <= e.slot
    ensures forall k :: 0 <= k < |entries| ==> entries[k].SlotEnd() <= e.slot
  {
  }

  // ---------- a command line, word by word ----------

  datatype Flag = INGRESS | EGRESS | TRANSFER | TUNNEL_ENABLED | TUNNEL_ACTIONS | TUNNEL_ITEMS

  /** What the tokens of a validate/create command ask for. An attribute is a flag or announces a value;
      `Element` is a pattern item or an action. */
  datatype Token =
    | Validate | Create
    | Attribute(flag: Option<Flag>) | TunnelSet | TunnelMatch
    | Pattern | Actions
    | Element(typ: nat, size: nat)
    | Other

  datatype Param = Is | Spec | Last | Mask | Prefix

  datatype Step =
    | Keyword(t: Token)
    | Choose(param: Param)
    | Configure
    | Value(off: nat, value: seq<byte>, mask: seq<byte>)

  /** What does not change: the buffer, the places in its header, the list of tokens after a prefix. */
  datatype Setup = Setup(base: nat, size: nat, header: nat, attrAt: nat, tunnelAt: nat, prefixList: nat)

  /** The header fields and the parser context. Pointers are addresses, NULL is 0. */
  datatype Regs = Regs(command: Option<Token>, flags: set<Flag>, pattern: nat, patternN: nat, actions: nat,
                       actionsN: nat, data: nat, target: nat, objmask: nat, objdata: nat, next: seq<nat>)

  /** What the token tables may offer next: the command, its attributes, the pattern, its items, the
      actions keyword, the actions. A block is smaller than the address of those before it. */
  predicate Offered(r: Regs, t: Token) {
    || r.command.None?
    || (r.pattern == 0 && (t.Attribute? || t == TunnelSet || t == TunnelMatch || t == Pattern))
    || (r.pattern != 0 && t.Element? && t.size * 3 <= r.data && t.size * 3 < 0x1_0000_0000)
    || (r.pattern != 0 && r.actions == 0 && t == Actions)
  }

  /** The entry that accepting an element would add. */
  function Added(r: Regs, typ: nat, size: nat): Entry
    requires size * 3 <= r.data
  {
    NewEntry(r.actions == 0,
             if r.actions == 0 then r.pattern + ITEM_SIZE * r.patternN else r.actions + ACTION_SIZE * r.actionsN,
             r.data, typ, size)
  }

  /** The flags a token sets. */
  function FlagsOf(t: Token): set<Flag> {
    match t
    case Attribute(Some(f)) => {f}
    case TunnelSet => {TUNNEL_ENABLED, TUNNEL_ACTIONS}
    case TunnelMatch => {TUNNEL_ENABLED, TUNNEL_ITEMS}
    case _ => {}
  }

  /** The registers after a keyword, or None if it is refused. */
  function AfterToken(c: Setup, r: Regs, t: Token): Option<Regs>
    requires Offered(r, t)
  {
    if r.command.None? then
      if (t == Validate || t == Create) && c.header <= c.size
      then Some(r.(command := Some(t), data := c.base + c.size, target := c.base, objmask := 0, objdata := 0))
      else None
    else
      var s := r.(flags := r.flags + FlagsOf(t), objmask := 0, objdata := 0,
                  target := if t == TunnelSet || t == TunnelMatch then c.tunnelAt else c.attrAt);
      match t
      case Attribute(_) => Some(s)
      case TunnelSet => Some(s)
      case TunnelMatch => Some(s)
      case Pattern => var at := AlignCeil(c.base + c.header); Some(s.(pattern := at, target := at))
      case Actions => var at := AlignCeil(r.pattern + ITEM_SIZE * r.patternN); Some(s.(actions := at, target := at))
      case Element(typ, size) =>
        var e := Added(r, typ, size);
        if e.SlotEnd() > e.at then None
        else
          var u := s.(data := e.at, target := e.slot, objdata := |e.content|);
          Some(if r.actions == 0 then u.(patternN := r.patternN + 1) else u.(actionsN := r.actionsN + 1))
      case _ => None
  }

  predicate SetsFlag(t: Token, f: Flag) {
    || t == Attribute(Some(f))
    || (t == TunnelSet && (f == TUNNEL_ENABLED || f == TUNNEL_ACTIONS))
    || (t == TunnelMatch && (f == TUNNEL_ENABLED || f == TUNNEL_ITEMS))
  }

  /** What a keyword other than an element does to the registers, token by token: a flag or two are set and
      none cleared, the target is the attributes, the tunnel options or the array just begun at the first
      aligned address behind the header or the items, and the object before is no longer in the context. */
  ghost predicate KeywordDone(c: Setup, was: Regs, t: Token, now: Regs) {
    && (forall f :: f in now.flags <==> f in was.flags || SetsFlag(t, f))
    && now.objmask == 0 && now.objdata == 0 && now.next == was.next && now.command == was.command
    && now.patternN == was.patternN && now.actionsN == was.actionsN && now.data == was.data
    && (t.Attribute? ==> now.target == c.attrAt)
    && (t == TunnelSet || t == TunnelMatch ==> now.target == c.tunnelAt)
    && (if t == Pattern then now.target == now.pattern && now.pattern % 8 == 0
          && c.base + c.header <= now.pattern < c.base + c.header + 8
        else now.pattern == was.pattern)
    && (if t == Actions then now.target == now.actions && now.actions % 8 == 0
          && was.pattern + 32 * was.patternN <= now.actions < was.pattern + 32 * was.patternN + 8
        else now.actions == was.actions)
  }

  /** What an element that is accepted does: its entry is the object, one more is counted in its array, and
      its block is the lowest. */
  ghost predicate ElementDone(was: Regs, e: Entry, now: Regs) {
    && now.flags == was.flags && now.command == was.command && now.next == was.next
    && now.pattern == was.pattern && now.actions == was.actions
    && now.target == e.slot && now.data == e.at && now.objdata == |e.content| && now.objmask == 0
    && now.patternN == was.patternN + (if was.actions == 0 then 1 else 0)
    && now.actionsN == was.actionsN + (if was.actions == 0 then 0 else 1)
  }

  /** The first word in numbers. */
  ghost predicate FirstDone(c: Setup, was: Regs, t: Token, now: Regs) {
    && (t == Validate || t == Create) && now.command == Some(t)
    && now.target == c.base && now.data == c.base + c.size && now.objmask == 0 && now.objdata == 0
    && now.flags == was.flags && now.next == was.next && now.pattern == was.pattern && now.actions == was.actions
    && now.patternN == was.patternN && now.actionsN == was.actionsN
  }

  /** Whatever is accepted does just that. */
  lemma TokenDone(c: Setup, r: Regs, t: Token)
    requires Offered(r, t)
    ensures var s := AfterToken(c, r, t); s.Some? ==>
      && (r.command.None? ==> FirstDone(c, r, t, s.value))
      && (r.command.Some? && t.Element? ==> ElementDone(r, Added(r, t.typ, t.size), s.value))
      && (r.command.Some? && !t.Element? ==> KeywordDone(c, r, t, s.value))
  {
    hide NewEntry;
  }

  /** Which third of an item's block a parameter means. */
  function Third(param: Param): nat {
    match param
    case Is => 0
    case Spec => 0
    case Last => 1
    case Mask => 2
    case Prefix => 2
  }

  /** The pointers of an item after one of its parameters has been chosen; its block is three objects
      of `third` bytes. */
  function Pointed(words: seq<nat>, param: Param, at: nat, third: nat): (r: seq<nat>)
    requires |words| == 4
    ensures |r| == 4
  {
    match param
    case Is => words[3 := at + third * 2][1 := at]
    case Spec => words[1 := at]
    case Last => words[2 := at + third]
    case Mask => words[3 := at + third * 2]
    case Prefix => words[3 := at + third * 2]
  }

  /** What choosing a parameter does to an item, field by field of its record [type, spec, last, mask]:
      one field, for "is" two, come to hold the address of the object chosen. */
  predicate PointedAt(was: Entry, now: Entry, param: Param, target: nat, objmask: nat) {
    && |was.words| == |now.words| == 4
    && now.slot == was.slot && now.at == was.at && now.content == was.content && now.words[0] == was.words[0]
    && match param
       case Is =>
         now.words[1] == target == was.at && now.words[2] == was.words[2]
         && now.words[3] == objmask == was.at + 2 * (|was.content| / 3)
       case Spec =>
         now.words[1] == target == was.at && now.words[2] == was.words[2] && now.words[3] == was.words[3]
         && objmask == 0
       case Last =>
         now.words[2] == target == was.at + |was.content| / 3
         && now.words[1] == was.words[1] && now.words[3] == was.words[3] && objmask == 0
       case Mask =>
         now.words[3] == target == was.at + 2 * (|was.content| / 3)
         && now.words[1] == was.words[1] && now.words[2] == was.words[2] && objmask == 0
       case Prefix =>
         now.words[3] == target == was.at + 2 * (|was.content| / 3)
         && now.words[1] == was.words[1] && now.words[2] == was.words[2] && objmask == 0
  }

  /** A record's pointers are absent or lead to its own block: an item's spec, last and mask to the first,
      second and third third of it, an action's configuration to all of it. */
  predicate OwnPointers(e: Entry) {
    && (|e.words| == 4 ==>
         && (e.words[1] == 0 || e.words[1] == e.at)
         && (e.words[2] == 0 || e.words[2] == e.at + |e.content| / 3)
         && (e.words[3] == 0 || e.words[3] == e.at + 2 * (|e.content| / 3)))
    && (|e.words| == 2 ==> e.words[1] == if e.content == [] then 0 else e.at)
  }

  predicate AllOwnPointers(es: seq<Entry>) {
    forall e :: e in es ==> OwnPointers(e)
  }

  /** A new entry in numbers: its type and no pointers, or for an action with a configuration that one; its
      zeroed block, aligned, ends less than 8 bytes below the earlier ones. */
  predicate FreshEntry(e: Entry, item: bool, typ: nat, size: nat, data: nat) {
    && (if item then e.words == [typ, 0, 0, 0] && |e.content| == 3 * size
        else |e.words| == 2 && e.words[0] == typ && e.words[1] == (if size > 0 then e.at else 0) && |e.content| == size)
    && (forall i :: 0 <= i < |e.content| ==> e.content[i] == 0)
    && e.at % 8 == 0 && e.at + |e.content| <= data < e.at + |e.content| + 8
  }

  lemma AddedIsFresh(r: Regs, typ: nat, size: nat)
    requires size * 3 <= r.data
    ensures FreshEntry(Added(r, typ, size), r.actions == 0, typ, size, r.data)
    ensures OwnPointers(Added(r, typ, size))
    ensures r.actions == 0 ==> Added(r, typ, size).slot == r.pattern + 32 * r.patternN
    ensures r.actions != 0 ==> Added(r, typ, size).slot == r.actions + 16 * r.actionsN
  {
    NewEntryIs(r.actions == 0,
               if r.actions == 0 then r.pattern + ITEM_SIZE * r.patternN else r.actions + ACTION_SIZE * r.actionsN,
               r.data, typ, size);
  }

  function AfterParam(c: Setup, r: Regs, param: Param): Option<Regs> {
    if r.patternN == 0 || (param == Prefix && |r.next| < 2) then None
    else
      var third := r.objdata / 3;
      Some(r.(next := if param == Prefix then r.next[|r.next| - 2 := c.prefixList] else r.next,
              target := r.data + third * Third(param),
              objmask := if param == Is then r.data + third * 2 else 0))
  }

  /** The last item, pointing at the object chosen. */
  function WithPointers(es: seq<Entry>, param: Param, third: nat): seq<Entry> {
    if es == [] then es
    else
      var e := es[|es| - 1];
      if |e.words| == 4 then es[|es| - 1 := e.(words := Pointed(e.words, param, e.at, third))] else es
  }

  /** Nothing that has a block is under construction. */
  predicate InHeader(r: Regs) {
    r.patternN == 0 || (r.actions != 0 && r.actionsN == 0)
  }

  /** The bytes a value may be stored to lie in the last block. */
  predicate InBlock(r: Regs, off: nat, value: seq<byte>, mask: seq<byte>) {
    && r.data <= r.target && r.target + off + |value| <= r.data + r.objdata
    && (r.objmask != 0 ==> r.data <= r.objmask && r.objmask + off + |mask| <= r.data + r.objdata)
  }

  /** The last block with a value stored, and with its mask if one is selected. */
  function WithValue(r: Regs, es: seq<Entry>, off: nat, value: seq<byte>, mask: seq<byte>): seq<Entry>
    requires InBlock(r, off, value, mask)
  {
    if es == [] || |es[|es| - 1].content| != r.objdata then es
    else
      var e := es[|es| - 1];
      var stored := Put(e.content, r.target + off - r.data, value);
      es[|es| - 1 := e.(content :=
        if r.objmask != 0 then Put(stored, r.objmask + off - r.data, mask) else stored)]
  }

  /** What may come next and where a value may go, by the token tables. */
  predicate Possible(c: Setup, r: Regs, s: Step) {
    match s
    case Keyword(t) => Offered(r, t)
    case Choose(_) => r.pattern != 0 && r.actions == 0
    case Configure => r.actionsN != 0
    case Value(off, value, mask) =>
      if InHeader(r) then r.command.Some? && c.base <= r.target && r.target + off + |value| <= c.base + c.header
      else InBlock(r, off, value, mask)
  }

  /** Registers and entries after one word, or None if it is not accepted. */
  function AfterStep(c: Setup, r: Regs, es: seq<Entry>, s: Step): Option<(Regs, seq<Entry>)> {
    if !Possible(c, r, s) then None
    else match s
    case Keyword(t) =>
      var r' := AfterToken(c, r, t);
      if r'.None? then None
      else Some((r'.value, if r.command.Some? && t.Element? then es + [Added(r, t.typ, t.size)] else es))
    case Choose(param) =>
      var r' := AfterParam(c, r, param);
      if r'.None? then None else Some((r'.value, WithPointers(es, param, r.objdata / 3)))
    case Configure => Some((r.(target := r.data, objmask := 0), es))
    case Value(off, value, mask) => Some((r, if InHeader(r) then es else WithValue(r, es, off, value, mask)))
  }

  /** How many words of a command line are accepted, and the registers and entries after them. */
  function AfterLine(c: Setup, r: Regs, es: seq<Entry>, steps: seq<Step>): (nat, Regs, seq<Entry>)
    decreases |steps|
  {
    if steps == [] then (0, r, es)
    else
      var a := AfterStep(c, r, es, steps[0]);
      if a.None? then (0, r, es)
      else
        var b := AfterLine(c, a.value.0, a.value.1, steps[1..]);
        (b.0 + 1, b.1, b.2)
  }

  // ---------- the parser ----------

  /** The buffer, its header fields, and the parser context. Pointers are addresses, NULL is 0. */
  class Parser {
    const base: nat
    const header: nat
    const attrAt: nat
    const tunnelAt: nat
    const prefixList: nat
    const mem: array<byte>

    var command: Option<Token>
    var flags: set<Flag>
    var pattern: nat
    var actions: nat
    var patternN: nat
    var actionsN: nat
    var data: nat
    var target: nat
    var objmask: nat
    var objdata: nat
    var next: seq<nat>

    /** The items, then the actions, in the order in which they were accepted. */
    ghost var entries: seq<Entry>

    ghost predicate Valid()
      reads `command, `pattern, `actions, `patternN, `actionsN, `data, `entries, mem
    {
      && base > 0
      && (command.None? ==> pattern == 0)
      && (command.Some? ==> header <= mem.Length && base <= data <= base + mem.Length)
      && (pattern == 0 ==> actions == 0 && patternN == 0)
      && (actions == 0 ==> actionsN == 0)
      && (pattern != 0 ==> pattern == AlignCeil(base + header))
      && (actions != 0 ==> actions == AlignCeil(pattern + ITEM_SIZE * patternN))
      && Arrays(entries, pattern, patternN, actions, actionsN)
      && Layout(entries, base + header, data, base + mem.Length)
      && Represents(mem[..], base, entries)
    }

    /** parse_init: header cleared, the rest filled with 0x22, no command yet. */
    constructor (buf: array<byte>, base: nat, header: nat, attrAt: nat, tunnelAt: nat, prefixList: nat)
      requires base > 0 && header <= buf.Length
      modifies buf
      ensures Valid() && Current() && command.None? && entries == []
      ensures mem == buf && this.base == base && this.header == header
      ensures buf[..] == Zeros(header) + seq(buf.Length - header, i => 0x22)
    {
      this.base, this.header, mem := base, header, buf;
      this.attrAt, this.tunnelAt, this.prefixList := attrAt, tunnelAt, prefixList;
      command, flags, next := None, {}, [];
      pattern, actions, patternN, actionsN, data := 0, 0, 0, 0, 0;
      target, objmask, objdata := base, 0, 0;
      entries := [];
      new;
      Memset(mem, 0, 0, header);
      Memset(mem, header, 0x22, mem.Length - header);
      assert mem[..] == Zeros(header) + seq(buf.Length - header, i => 0x22);
    }

    /** The context describes the entry accepted last, if one of the array being filled has been. */
    ghost predicate Current()
      reads `actions, `actionsN, `data, `objdata, `entries
    {
      entries != [] && (actions != 0 ==> actionsN != 0) ==>
        var e := entries[|entries| - 1];
        data == e.at && objdata == |e.content| && (|e.words| == 4 ==> objdata / 3 * 3 == objdata)
    }

    function Fixed(): Setup {
      Setup(base, mem.Length, header, attrAt, tunnelAt, prefixList)
    }

    function State(): Regs
      reads this
    {
      Regs(command, flags, pattern, patternN, actions, actionsN, data, target, objmask, objdata, next)
    }

    /** An item: its record at the end of the pattern, room for spec, last and mask below the earlier blocks. */
    method PlaceItem(typ: nat, size: nat) returns (ok: bool)
      requires Valid() && command.Some? && pattern != 0 && actions == 0 && size * 3 <= data
      modifies `patternN, `data, `target, `objdata, `entries, mem
      ensures Valid()
      ensures var e := old(Added(State(), typ, size));
        && ok == (e.SlotEnd() <= e.at)
        && (ok ==> entries == old(entries) + [e] && Current() && target == e.slot)
        && (ok ==> patternN == old(patternN) + 1 && data == e.at && objdata == |e.content|)
        && (!ok ==> entries == old(entries) && mem[..] == old(mem[..]) && data == old(data) && objdata == old(objdata))
    {
      hide Record, Word, Represents, Layout, Put, Zeros, Arrays, AlignFloor, AlignCeil, Holds, NewEntry;
      ghost var e := Added(State(), typ, size);
      ghost var was, low, top := mem[..], base + header, base + mem.Length;
      var record := pattern + ITEM_SIZE * patternN;
      var bytes := size * 3;
      var at := AlignFloor(data - bytes);
      NewEntryIs(true, record, data, typ, size);
      if record + ITEM_SIZE > at {
        return false;
      }
      ItemAdded(entries, pattern, patternN, e, low);
      WriteElement(mem, record - base, [typ, 0, 0, 0], at - base, bytes);
      Extend(was, base, entries, e, low, data, top);
      patternN := patternN + 1;
      target, data, objdata := record, at, bytes;
      entries := entries + [e];
      return true;
    }

    /** An action: its record at the end of the actions, its configuration below the earlier blocks. */
    method PlaceAction(typ: nat, size: nat) returns (ok: bool)
      requires Valid() && command.Some? && pattern != 0 && actions != 0 && size * 3 <= data
      modifies `actionsN, `data, `target, `objdata, `entries, mem
      ensures Valid()
      ensures var e := old(Added(State(), typ, size));
        && ok == (e.SlotEnd() <= e.at)
        && (ok ==> entries == old(entries) + [e] && Current() && target == e.slot)
        && (ok ==> actionsN == old(actionsN) + 1 && data == e.at && objdata == |e.content|)
        && (!ok ==> entries == old(entries) && mem[..] == old(mem[..]) && data == old(data) && objdata == old(objdata))
    {
      hide Record, Word, Represents, Layout, Put, Zeros, Arrays, AlignFloor, AlignCeil, Holds, NewEntry;
      ghost var e := Added(State(), typ, size);
      ghost var was, low, top := mem[..], base + header, base + mem.Length;
      var record := actions + ACTION_SIZE * actionsN;
      var bytes := size;
      var at := AlignFloor(data - bytes);
      NewEntryIs(false, record, data, typ, size);
      if record + ACTION_SIZE > at {
        return false;
      }
      ActionAdded(entries, pattern, patternN, actions, actionsN, e, low);
      WriteElement(mem, record - base, [typ, if bytes != 0 then at else 0], at - base, bytes);
      Extend(was, base, entries, e, low, data, top);
      actionsN := actionsN + 1;
      target, data, objdata := record, at, bytes;
      entries := entries + [e];
      return true;
    }

    /** The first token: the whole buffer behind the header is free. */
    method Begin(t: Token) returns (ok: bool)
      requires Valid() && command.None?
      modifies `command, `data, `target, `objmask, `objdata
      ensures Valid() && (ok ==> Current())
      ensures ok == ((t == Validate || t == Create) && header <= mem.Length)
      ensures command == if ok then Some(t) else None
      ensures ok ==> target == base && objmask == 0 && objdata == 0 && data == base + mem.Length
    {
      hide Represents, Layout, AlignFloor, AlignCeil, Arrays;
      if t != Validate && t != Create {
        return false;
      }
      if header > mem.Length {
        return false;
      }
      command := Some(t);
      objdata, target, objmask := 0, base, 0;
      data := base + mem.Length;
      NoEntries(mem[..], base, entries, base + header, data, base + mem.Length);
      return true;
    }

    /** The item array starts right behind the header. */
    method StartPattern()
      requires Valid() && command.Some? && pattern == 0
      modifies `pattern, `target
      ensures Valid() && Current() && target == pattern == AlignCeil(base + header) && patternN == 0
    {
      hide Represents, Layout, AlignFloor, AlignCeil, Arrays;
      Phase();
      NoArrays(entries, AlignCeil(base + header));
      pattern := AlignCeil(base + header);
      target := pattern;
    }

    /** The action array starts right behind the items. */
    method StartActions()
      requires Valid() && pattern != 0 && actions == 0
      modifies `actions, `target
      ensures Valid() && Current() && actionsN == 0
      ensures target == actions == AlignCeil(pattern + ITEM_SIZE * patternN)
    {
      hide Represents, Layout, AlignFloor, AlignCeil, Arrays;
      ItemsOnly(entries, pattern, patternN, AlignCeil(pattern + ITEM_SIZE * patternN));
      actions := AlignCeil(pattern + ITEM_SIZE * patternN);
      target := actions;
    }

    lemma Phase()
      requires Valid()
      ensures command.None? ==> pattern == 0
      ensures command.Some? ==> base <= data
      ensures pattern == 0 ==> entries == [] && Current() && actions == 0
      ensures actions == 0 ==> actionsN == 0
    {
    }

    /** The end of the switch: what the tokens other than elements do. */
    method ParseKeyword(t: Token) returns (ok: bool)
      requires Valid() && command.Some? && Offered(State(), t) && !t.Element?
      modifies `flags, `pattern, `actions, `target, `objmask, `objdata
      ensures Valid() && ok && Current()
      ensures AfterToken(Fixed(), old(State()), t) == Some(State())
    {
      hide Valid, AlignCeil, AfterToken, FlagsOf;
      Phase();
      AfterKeyword(Fixed(), State(), t);
      ok, objdata, objmask := true, 0, 0;
      target := if t == TunnelSet || t == TunnelMatch then tunnelAt else attrAt;
      match t {
        case Attribute(f) =>
          if f.Some? {
            flags := flags + {f.value};
          }
        case TunnelSet =>
          flags := flags + {TUNNEL_ENABLED, TUNNEL_ACTIONS};
        case TunnelMatch =>
          flags := flags + {TUNNEL_ENABLED, TUNNEL_ITEMS};
        case Pattern =>
          StartPattern();
        case Actions =>
          StartActions();
      }
    }

    /** Its default: an item while the pattern is being filled, then an action. */
    method ParseElement(typ: nat, size: nat) returns (ok: bool)
      requires Valid() && command.Some? && Offered(State(), Element(typ, size))
      modifies `patternN, `actionsN, `data, `target, `objmask, `objdata, `entries, mem
      ensures Valid() && (ok ==> Current())
      ensures var e := old(Added(State(), typ, size));
        && ok == (e.SlotEnd() <= e.at)
        && entries == (if ok then old(entries) + [e] else old(entries))
        && FreshEntry(e, old(actions) == 0, typ, size, old(data))
        && e.slot == old(if actions == 0 then pattern + 32 * patternN else actions + 16 * actionsN)
      ensures !ok ==> mem[..] == old(mem[..])
      ensures AfterToken(Fixed(), old(State()), Element(typ, size)) == if ok then Some(State()) else None
    {
      hide Valid, NewEntry, AfterToken, Entry.SlotEnd, FreshEntry, Current, AlignFloor, AlignCeil;
      Phase();
      AddedIsFresh(State(), typ, size);
      AfterKeyword(Fixed(), State(), Element(typ, size));
      objdata, objmask, target := 0, 0, attrAt;
      if actions == 0 {
        ok := PlaceItem(typ, size);
      } else {
        ok := PlaceAction(typ, size);
      }
    }

    /** One token of the command. An element is accepted exactly when its record still fits below its
        block, and then joins the others at the end, its block zeroed; no other entry changes. */
    method ParseVc(t: Token) returns (ok: bool)
      requires Valid() && Offered(State(), t)
      modifies this, mem
      ensures Valid() && (ok ==> Current())
      ensures old(command).None? ==> ok == ((t == Validate || t == Create) && header <= mem.Length)
      ensures old(command).Some? && !t.Element? ==> ok
      ensures old(command).Some? && t.Element? ==>
        var e := old(Added(State(), t.typ, t.size));
        && ok == (e.SlotEnd() <= e.at)
        && (ok ==> entries == old(entries) + [e])
        && FreshEntry(e, old(actions) == 0, t.typ, t.size, old(data))
        && e.slot == old(if actions == 0 then pattern + 32 * patternN else actions + 16 * actionsN)
      ensures !(ok && old(command).Some? && t.Element?) ==> entries == old(entries) && mem[..] == old(mem[..])
      ensures ok && old(command).None? ==> FirstDone(Fixed(), old(State()), t, State())
      ensures ok && old(command).Some? && !t.Element? ==> KeywordDone(Fixed(), old(State()), t, State())
      ensures ok && old(command).Some? && t.Element? ==>
        ElementDone(old(State()), old(Added(State(), t.typ, t.size)), State())
      ensures AfterToken(Fixed(), old(State()), t) == if ok then Some(State()) else None
    {
      hide Valid, NewEntry, Added, AfterToken, Entry.SlotEnd, AlignCeil, FlagsOf, FreshEntry;
      hide FirstDone, KeywordDone, ElementDone;
      TokenDone(Fixed(), State(), t);
      if command.None? {
        AfterFirst(Fixed(), State(), t);
        ok := Begin(t);
      } else if t.Element? {
        ok := ParseElement(t.typ, t.size);
      } else {
        ok := ParseKeyword(t);
      }
    }

    /** Writes field `i` of the last item's record. */
    method SetPointer(i: nat, x: nat)
      requires Valid() && Current() && patternN != 0 && actions == 0 && i < 4
      modifies `entries, mem
      ensures Valid() && Current()
      ensures var last := |old(entries)| - 1; var e := old(entries)[last];
        entries == old(entries)[last := e.(words := e.words[i := x])]
    {
      hide Record, Word, Represents, Layout, Put, Holds, AlignCeil;
      ghost var last := |entries| - 1;
      ghost var e := entries[last];
      SetField(mem[..], base, entries, last, i, x, base + header, data, base + mem.Length);
      var item := pattern + ITEM_SIZE * (patternN - 1);
      assert item == e.slot;
      PutBytes(mem, item + 8 * i - base, Word(x));
      entries := entries[last := e.(words := e.words[i := x])];
    }

    /** Writes bytes inside the last entry's block. */
    method StoreAt(at: nat, x: seq<byte>)
      requires Valid() && Current() && data <= at && at + |x| <= data + objdata
      requires entries != [] && (actions != 0 ==> actionsN != 0)
      modifies `entries, mem
      ensures Valid() && Current()
      ensures var last := |old(entries)| - 1; var e := old(entries)[last];
        entries == old(entries)[last := e.(content := Put(e.content, at - e.at, x))]
    {
      hide Record, Word, Represents, Layout, Put, Holds, AlignCeil;
      ghost var last := |entries| - 1;
      ghost var e := entries[last];
      SetContent(mem[..], base, entries, last, at - data, x, base + header, data, base + mem.Length);
      PutBytes(mem, at - base, x);
      entries := entries[last := e.(content := Put(e.content, at - data, x))];
    }

    /** The pointers of the last item, the mask first. */
    method PointItem(param: Param, third: nat)
      requires Valid() && Current() && patternN != 0 && actions == 0
      modifies `entries, mem
      ensures Valid() && Current() && entries == WithPointers(old(entries), param, third)
    {
      hide Valid, Current;
      ItemThere();
      if param == Is {
        SetPointer(3, data + third * 2);
      }
      SetPointer(1 + Third(param), data + third * Third(param));
    }

    lemma ItemThere()
      requires Valid() && Current() && patternN != 0 && actions == 0
      ensures entries != [] && entries[|entries| - 1].at == data && |entries[|entries| - 1].words| == 4
      ensures objdata / 3 * 3 == objdata == |entries[|entries| - 1].content|
    {
    }

    /** Points the context at the spec, last or mask of the last item, and the item at them: the object is
        the third of the item's own block that the parameter names. */
    method ParseVcSpec(param: Param) returns (ok: bool)
      requires Valid() && Current() && pattern != 0 && actions == 0
      modifies `next, `target, `objmask, `entries, mem
      ensures Valid() && Current()
      ensures ok == (patternN != 0 && (param == Prefix ==> 2 <= |old(next)|))
      ensures next ==
        if param == Prefix && 2 <= |old(next)| then old(next)[|old(next)| - 2 := prefixList] else old(next)
      ensures !ok ==> target == old(target) && entries == old(entries) && mem[..] == old(mem[..])
      ensures ok ==>
        var third := objdata / 3;
        var e := old(entries)[|old(entries)| - 1];
        && entries == WithPointers(old(entries), param, third)
        && |entries| == |old(entries)| && entries[..|entries| - 1] == old(entries)[..|entries| - 1]
        && PointedAt(e, entries[|entries| - 1], param, target, objmask)
        && Inside(Region(target, third), Block(e)) && (param == Is ==> Inside(Region(objmask, third), Block(e)))
    {
      hide Valid, Current, Inside, WithPointers, PointedAt;
      if param == Prefix {
        if |next| < 2 {
          return false;
        }
        next := next[|next| - 2 := prefixList];
      }
      if patternN == 0 {
        return false;
      }
      ItemThere();
      var third := objdata / 3;
      PointedInside(entries[|entries| - 1], third);
      target := data + third * Third(param);
      objmask := 0;
      if param == Is {
        objmask := data + third * 2;
      }
      PointsAt(entries, param, third);
      PointItem(param, third);
      return true;
    }

    /** Points the context at the configuration of the last action. */
    method ParseVcConf()
      requires Valid() && Current() && actionsN != 0
      modifies `target, `objmask
      ensures target == data == entries[|entries| - 1].at && objmask == 0
    {
      hide Represents, Layout, AlignCeil;
      target := data;
      objmask := 0;
    }

    /** A value parser stores at its argument's offset into the object, and into its mask if there is one. */
    method Store(off: nat, value: seq<byte>, mask: seq<byte>)
      requires Valid() && Current() && InBlock(State(), off, value, mask)
      requires entries != [] && (actions != 0 ==> actionsN != 0)
      modifies `entries, mem
      ensures Valid() && Current()
      ensures var last := |old(entries)| - 1; var e := old(entries)[last];
        var stored := Put(e.content, target + off - e.at, value);
        entries == old(entries)[last :=
          e.(content := if objmask != 0 then Put(stored, objmask + off - e.at, mask) else stored)]
      ensures entries == WithValue(State(), old(entries), off, value, mask)
    {
      hide Put, Valid;
      StoreAt(target + off, value);
      if objmask != 0 {
        StoreAt(objmask + off, mask);
      }
    }

    /** A value of an attribute goes into the header and touches no entry. */
    method StoreAttribute(off: nat, value: seq<byte>)
      requires Valid() && command.Some? && base <= target && target + off + |value| <= base + header
      modifies mem
      ensures Valid()
      ensures mem[..] == Put(old(mem[..]), target + off - base, value)
    {
      hide Record, Put, Holds, AlignCeil, Arrays;
      HeaderApart(entries, base + header, data, base + mem.Length, target + off, |value|);
      WriteElsewhereAll(mem[..], base, entries, target + off, value);
      PutBytes(mem, target + off - base, value);
    }

    /** One word of a command line, if it is possible and accepted. */
    method TakeWord(s: Step) returns (ok: bool)
      requires Valid() && Current()
      modifies this, mem
      ensures Valid() && (ok ==> Current())
      ensures var a := AfterStep(Fixed(), old(State()), old(entries), s);
        if ok then a == Some((State(), entries)) else a == None && entries == old(entries)
    {
      hide Valid, Current, AfterToken, WithPointers, WithValue, Added, Offered, Inside, InBlock, Entry.SlotEnd;
      if !Possible(Fixed(), State(), s) {
        return false;
      }
      ok := true;
      match s {
        case Keyword(t) => ok := ParseVc(t);
        case Choose(param) =>
          if patternN != 0 {
            ItemThere();
          }
          ok := ParseVcSpec(param);
        case Configure => ParseVcConf();
        case Value(off, value, mask) =>
          Filling();
          if InHeader(State()) {
            StoreAttribute(off, value);
          } else {
            Store(off, value, mask);
          }
      }
    }

    /** Any command line, up to the first word that is not accepted: the entries are those of the words
        accepted, records and blocks are disjoint and inside the buffer, and hold these entries; pointers
        lead to the right third of the entry's own block. */
    method Run(steps: seq<Step>) returns (done: nat)
      requires Valid() && Current() && AllOwnPointers(entries)
      modifies this, mem
      ensures AllOwnPointers(entries)
      ensures var a := AfterLine(Fixed(), old(State()), old(entries), steps); done == a.0 && entries == a.2
      ensures Valid() && Represents(mem[..], base, entries)
      ensures Disjoint(entries, base + header, base + mem.Length)
    {
      hide Valid, Current, Disjoint, AfterStep, AfterLine, State, AllOwnPointers;
      done := 0;
      ghost var whole := AfterLine(Fixed(), State(), entries, steps);
      assert steps[0..] == steps;
      while done < |steps|
        invariant done <= |steps| && Valid() && Current() && AllOwnPointers(entries)
        invariant var a := AfterLine(Fixed(), State(), entries, steps[done..]);
          whole == (done + a.0, a.1, a.2)
      {
        LineStep(Fixed(), State(), entries, steps, done);
        PointersKept(steps[done]);
        var ok := TakeWord(steps[done]);
        if !ok {
          AllDisjoint();
          return;
        }
        done := done + 1;
      }
      LineEnd(Fixed(), State(), entries, steps[done..]);
      AllDisjoint();
    }

    lemma PointersKept(s: Step)
      requires Valid() && Current() && AllOwnPointers(entries)
      ensures var a := AfterStep(Fixed(), State(), entries, s); a.Some? ==> AllOwnPointers(a.value.1)
    {
      hide AllOwnPointers, AfterStep, Layout, Represents, AlignCeil;
      if s.Choose? && patternN != 0 && actions == 0 {
        ItemThere();
        StepKeepsPointers(Fixed(), State(), entries, s);
      } else if s.Choose? {
        NotChosen(Fixed(), State(), entries, s);
      } else {
        StepKeepsPointers(Fixed(), State(), entries, s);
      }
    }

    lemma Filling()
      requires Valid()
      ensures patternN != 0 && (actions != 0 ==> actionsN != 0) ==> entries != []
    {
    }

    lemma AllDisjoint()
      requires Valid()
      ensures Disjoint(entries, base + header, base + mem.Length) && Represents(mem[..], base, entries)
    {
      hide Disjoint, Layout, Arrays, Represents, AlignCeil;
      LayoutIsDisjoint(entries, base + header, data, base + mem.Length);
    }
  }

  lemma AfterFirst(c: Setup, r: Regs, t: Token)
    requires r.command.None?
    ensures AfterToken(c, r, t) ==
      if (t == Validate || t == Create) && c.header <= c.size
      then Some(r.(command := Some(t), data := c.base + c.size, target := c.base, objmask := 0, objdata := 0))
      else None
  {
  }

  /** AfterToken, keyword by keyword. */
  lemma AfterKeyword(c: Setup, r: Regs, t: Token)
    requires Offered(r, t) && r.command.Some?
    ensures var s := r.(objmask := 0, objdata := 0,
                        target := if t == TunnelSet || t == TunnelMatch then c.tunnelAt else c.attrAt);
      match t
      case Attribute(f) =>
        AfterToken(c, r, t) == Some(if f.Some? then s.(flags := r.flags + {f.value}) else s)
      case TunnelSet => AfterToken(c, r, t) == Some(s.(flags := r.flags + {TUNNEL_ENABLED, TUNNEL_ACTIONS}))
      case TunnelMatch => AfterToken(c, r, t) == Some(s.(flags := r.flags + {TUNNEL_ENABLED, TUNNEL_ITEMS}))
      case Pattern =>
        var at := AlignCeil(c.base + c.header); AfterToken(c, r, t) == Some(s.(pattern := at, target := at))
      case Actions =>
        var at := AlignCeil(r.pattern + ITEM_SIZE * r.patternN);
        AfterToken(c, r, t) == Some(s.(actions := at, target := at))
      case Element(typ, size) =>
        var e := Added(r, typ, size);
        var u := s.(data := e.at, target := e.slot, objdata := |e.content|);
        AfterToken(c, r, t) ==
          if e.SlotEnd() > e.at then None
          else Some(if r.actions == 0 then u.(patternN := r.patternN + 1) else u.(actionsN := r.actionsN + 1))
      case _ => AfterToken(c, r, t) == None
  {
    hide AlignCeil, NewEntry;
    assert r.flags + {} == r.flags;
  }

  lemma PointsAt(es: seq<Entry>, param: Param, third: nat)
    requires es != [] && |es[|es| - 1].words| == 4 && third == |es[|es| - 1].content| / 3
    ensures var e := es[|es| - 1]; var now := WithPointers(es, param, third);
      && |now| == |es| && now[..|es| - 1] == es[..|es| - 1]
      && PointedAt(e, now[|es| - 1], param, e.at + third * Third(param), if param == Is then e.at + third * 2 else 0)
  {
  }

  /** No word makes a pointer lead out of its own block. */
  lemma StepKeepsPointers(c: Setup, r: Regs, es: seq<Entry>, s: Step)
    requires AllOwnPointers(es)
    requires s.Choose? && es != [] && |es[|es| - 1].words| == 4 ==> |es[|es| - 1].content| == r.objdata
    ensures var a := AfterStep(c, r, es, s); a.Some? ==> AllOwnPointers(a.value.1)
  {
    hide AfterToken, AfterParam, Added, Possible, Put, OwnPointers, WithValue;
    match s
    case Keyword(t) =>
      if Possible(c, r, s) && r.command.Some? && t.Element? {
        OfferedElement(c, r, t);
        AddedIsFresh(r, t.typ, t.size);
      }
    case Choose(param) =>
      if es != [] && |es[|es| - 1].words| == 4 {
        ChosenOwn(es[|es| - 1], param, r.objdata / 3);
      }
    case Configure =>
    case Value(off, value, mask) =>
      if Possible(c, r, s) && !InHeader(r) {
        PossibleValue(c, r, s);
        ValueOwn(r, es, off, value, mask);
      }
  }

  lemma NotChosen(c: Setup, r: Regs, es: seq<Entry>, s: Step)
    requires s.Choose? && !(r.patternN != 0 && r.actions == 0)
    ensures AfterStep(c, r, es, s) == None
  {
  }

  lemma OfferedElement(c: Setup, r: Regs, t: Token)
    requires Possible(c, r, Keyword(t)) && r.command.Some? && t.Element?
    ensures Offered(r, t) && t.size * 3 <= r.data
  {
  }

  lemma PossibleValue(c: Setup, r: Regs, s: Step)
    requires Possible(c, r, s) && s.Value? && !InHeader(r)
    ensures InBlock(r, s.off, s.value, s.mask)
  {
  }

  lemma ChosenOwn(e: Entry, param: Param, third: nat)
    requires OwnPointers(e) && |e.words| == 4 && third == |e.content| / 3
    ensures OwnPointers(e.(words := Pointed(e.words, param, e.at, third)))
  {
  }

  lemma ValueOwn(r: Regs, es: seq<Entry>, off: nat, value: seq<byte>, mask: seq<byte>)
    requires InBlock(r, off, value, mask) && AllOwnPointers(es)
    ensures AllOwnPointers(WithValue(r, es, off, value, mask))
  {
    hide Put, InBlock;
    var now := WithValue(r, es, off, value, mask);
    if now != es {
      var last := |es| - 1;
      assert es[last] in es;
      assert now[last].words == es[last].words && now[last].at == es[last].at;
      assert |now[last].content| == |es[last].content|;
      forall e | e in now
        ensures OwnPointers(e)
      {
        var k :| 0 <= k < |now| && now[k] == e;
        assert es[k] in es;
      }
    }
  }

  lemma LineStep(c: Setup, r: Regs, es: seq<Entry>, steps: seq<Step>, k: nat)
    requires k < |steps|
    ensures var a := AfterStep(c, r, es, steps[k]);
      AfterLine(c, r, es, steps[k..]) ==
        if a.None? then (0, r, es)
        else
          var b := AfterLine(c, a.value.0, a.value.1, steps[k + 1..]);
          (b.0 + 1, b.1, b.2)
  {
    hide AfterStep;
    assert steps[k..][1..] == steps[k + 1..];
  }

  lemma LineEnd(c: Setup, r: Regs, es: seq<Entry>, steps: seq<Step>)
    requires steps == []
    ensures AfterLine(c, r, es, steps) == (0, r, es)
  {
  }

  lemma PointedInside(e: Entry, third: nat)
    requires third * 3 == |e.content|
    ensures forall i :: 0 <= i < 3 ==> Inside(Region(e.at + third * i, third), Block(e))
  {
    forall i | 0 <= i < 3
      ensures Inside(Region(e.at + third * i, third), Block(e))
    {
      assert i == 0 || i == 1 || i == 2;
    }
  }

  /** The record is written and the block cleared. */
  method WriteElement(mem: array<byte>, slot: nat, words: seq<nat>, at: nat, n: nat)
    requires slot + 8 * |words| <= at && at + n <= mem.Length
    modifies mem
    ensures mem[..] == Put(Put(old(mem[..]), slot, Record(words)), at, Zeros(n))
  {
    hide Record;
    PutBytes(mem, slot, Record(words));
    ghost var was := mem[..];
    Memset(mem, at, 0, n);
    assert mem[..] == Put(was, at, Zeros(n));
  }

  lemma HeaderApart(entries: seq<Entry>, low: nat, data: nat, top: nat, at: nat, n: nat)
    requires Layout(entries, low, data, top) && at + n <= low
    ensures forall k :: 0 <= k < |entries| ==>
      Apart(Region(at, n), Slot(entries[k])) && Apart(Region(at, n), Block(entries[k]))
  {
  }

  lemma NoArrays(entries: seq<Entry>, pattern: nat)
    requires Arrays(entries, 0, 0, 0, 0)
    ensures Arrays(entries, pattern, 0, 0, 0)
  {
  }

  lemma ItemsOnly(entries: seq<Entry>, pattern: nat, patternN: nat, actions: nat)
    requires Arrays(entries, pattern, patternN, 0, 0)
    ensures Arrays(entries, pattern, patternN, actions, 0)
  {
  }

  lemma NoEntries(mem: seq<byte>, base: nat, entries: seq<Entry>, low: nat, data: nat, top: nat)
    requires Arrays(entries, 0, 0, 0, 0)
    ensures entries == [] && Layout(entries, low, data, top) && Represents(mem, base, entries)
  {
  }
}
