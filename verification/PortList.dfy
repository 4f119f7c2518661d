/** The port list parser of config.c: "0,2-5 , 7" and the like. */
module PortList {
  import opened Common

  const INT_LIMIT := 0x8000_0000                // INT_MAX + 1
  const LONG_LIMIT := 0x8000_0000_0000_0000     // LONG_MAX + 1

  // ---------- characters and strtol ----------

  predicate IsBlank(c: char) { c == ' ' || c == '\t' }

  predicate IsSpace(c: char) { c == ' ' || 9 <= c as int <= 13 }

  predicate IsDigit(c: char) { '0' <= c <= '9' }

  predicate IsSuffix(r: string, s: string) {
    |r| <= |s| && s[|s| - |r|..] == r
  }

  lemma SuffixTrans(r: string, t: string, s: string)
    requires IsSuffix(r, t) && IsSuffix(t, s)
    ensures IsSuffix(r, s)
  {
  }

  function SkipBlanks(s: string): (r: string)
    ensures IsSuffix(r, s)
    ensures r != [] ==> !IsBlank(r[0])
  {
    if s != [] && IsBlank(s[0]) then
      assert IsSuffix(s[1..], s);
      SuffixTrans(SkipBlanks(s[1..]), s[1..], s);
      SkipBlanks(s[1..])
    else s
  }

  function SkipSpaces(s: string): (r: string)
    ensures IsSuffix(r, s)
  {
    if s != [] && IsSpace(s[0]) then
      assert IsSuffix(s[1..], s);
      SuffixTrans(SkipSpaces(s[1..]), s[1..], s);
      SkipSpaces(s[1..])
    else s
  }

  function DigitRun(s: string): (n: nat)
    ensures n <= |s|
  {
    if s != [] && IsDigit(s[0]) then 1 + DigitRun(s[1..]) else 0
  }

  /** The value of a string of digits. */
  function DecValue(d: string): nat {
    if d == [] then 0
    else if IsDigit(d[|d| - 1]) then 10 * DecValue(d[..|d| - 1]) + (d[|d| - 1] as int - '0' as int)
    else 0
  }

  /** What strtol(s, &end, 10) returns; `range` stands for ERANGE. */
  datatype Long = Long(value: int, rest: string, range: bool)

  function AfterSign(t: string): (u: string)
    ensures IsSuffix(u, t)
  {
    if t != [] && (t[0] == '-' || t[0] == '+') then t[1..] else t
  }

  function Strtol(s: string): (r: Long)
    ensures IsSuffix(r.rest, s)
  {
    var t := SkipSpaces(s);
    var u := AfterSign(t);
    var n := DigitRun(u);
    if n == 0 then Long(0, s, false)
    else
      var v: int := if t[0] == '-' then 0 - DecValue(u[..n]) else DecValue(u[..n]);
      assert IsSuffix(u[n..], s) by {
        SuffixTrans(u, t, s);
        SuffixTrans(u[n..], u, s);
      }
      Long(v, u[n..], !(-LONG_LIMIT <= v < LONG_LIMIT))
  }

  /** Storing a long in an int. */
  function ToInt(v: int): int {
    var r := v % 0x1_0000_0000;
    if r < INT_LIMIT then r else r - 0x1_0000_0000
  }

  // ---------- what the parser computes ----------

  /** `acc` with each of `xs` appended that it does not hold yet. */
  function AddNew(acc: seq<nat>, xs: seq<nat>): seq<nat>
    decreases |xs|
  {
    if xs == [] then acc
    else AddNew(if xs[0] in acc then acc else acc + [xs[0]], xs[1..])
  }

  /** The numbers from `lo` to `hi`, both included. */
  function Interval(lo: nat, hi: nat): (r: seq<nat>)
    ensures |r| == if lo <= hi then hi + 1 - lo else 0
    ensures forall i :: 0 <= i < |r| ==> r[i] == lo + i
  {
    if lo <= hi then seq(hi + 1 - lo, i requires 0 <= i => lo + i) else []
  }

  /** The parser on what is left of the text: `lo` is the pending lower bound of a range, `acc` the
      ports so far. Failure is the empty result. */
  function Parse(s: string, lo: Option<nat>, acc: seq<nat>, maxsize: nat): seq<nat>
    decreases |s|
  {
    var t := SkipBlanks(s);
    if t == [] then acc
    else
      var l := Strtol(t);
      var value := ToInt(l.value);
      if l.range || value < 0 || value >= maxsize then []
      else
        var e := SkipBlanks(l.rest);
        if e != [] && e[0] == '-' && lo.None? then Parse(e[1..], Some(value), acc, maxsize)
        else if e == [] || e[0] == ',' then
          var acc' := AddNew(acc, Interval(if lo.Some? then lo.value else value, value));
          if e == [] then acc' else Parse(e[1..], None, acc', maxsize)
        else []
  }

  // ---------- the method ----------

  lemma InitSlice(s: string, i: nat, r: string)
    requires i <= |s| && IsSuffix(r, s[i..])
    ensures IsSuffix(r, s) && i <= |s| - |r|
  {
  }

  /** while (isblank(*p)) p++, on indices. */
  method SkipBlanksAt(s: string, i: nat) returns (j: nat)
    requires i <= |s|
    ensures i <= j <= |s| && s[j..] == SkipBlanks(s[i..])
  {
    j := i;
    while j < |s| && IsBlank(s[j])
      invariant i <= j <= |s| && SkipBlanks(s[j..]) == SkipBlanks(s[i..])
    {
      assert s[j..][1..] == s[j + 1..];
      j := j + 1;
    }
  }

  /** strtol, on indices; the library function itself is its specification. */
  method StrtolAt(s: string, i: nat) returns (value: int, end: nat, erange: bool)
    requires i <= |s|
    ensures i <= end <= |s|
    ensures Strtol(s[i..]) == Long(value, s[end..], erange)
  {
    var l := Strtol(s[i..]);
    InitSlice(s, i, l.rest);
    value, end, erange := l.value, |s| - |l.rest|, l.range;
  }

  /** The ports collected so far: distinct, below the limit, and the marks tell which. */
  predicate Marks(acc: seq<nat>, marked: seq<bool>) {
    && (forall k :: 0 <= k < |acc| ==> acc[k] < |marked|)
    && (forall j, k :: 0 <= j < k < |acc| ==> acc[j] != acc[k])
    && forall i :: 0 <= i < |marked| ==> (marked[i] <==> i in acc)
  }

  /** Distinct numbers below a limit are at most that many, and exactly that many only if they are all. */
  lemma Pigeonhole(acc: seq<nat>, marked: seq<bool>)
    requires Marks(acc, marked)
    ensures |acc| <= |marked|
    ensures |acc| == |marked| ==> forall i :: 0 <= i < |marked| ==> i in acc
  {
    Elements(acc);
    assert Elems(acc) <= Below(|marked|);
    SubsetSize(Elems(acc), Below(|marked|));
    if |acc| == |marked| {
      forall i: nat | i < |marked|
        ensures i in acc
      {
        assert i in Elems(acc);
      }
    }
  }

  function Elems(acc: seq<nat>): set<nat> {
    set x | x in acc
  }

  lemma {:induction false} Elements(acc: seq<nat>)
    requires forall j, k :: 0 <= j < k < |acc| ==> acc[j] != acc[k]
    ensures |Elems(acc)| == |acc|
  {
    if acc != [] {
      Elements(acc[1..]);
      assert acc[0] !in acc[1..];
      assert Elems(acc) == {acc[0]} + Elems(acc[1..]);
    }
  }

  function Below(n: nat): (b: set<nat>)
    ensures |b| == n && forall x: nat :: x in b <==> x < n
  {
    if n == 0 then {} else Below(n - 1) + {n - 1}
  }

  lemma {:induction false} SubsetSize(a: set<nat>, b: set<nat>)
    requires a <= b
    ensures |a| <= |b| && (|a| == |b| ==> a == b)
    decreases |a|
  {
    if a != {} {
      var x :| x in a;
      SubsetSize(a - {x}, b - {x});
      assert a == (a - {x}) + {x} && b == (b - {x}) + {x};
    } else if |b| == 0 {
      assert b == {};
    }
  }

  lemma AddNewSnoc(acc: seq<nat>, xs: seq<nat>, x: nat)
    ensures AddNew(acc, xs + [x]) == if x in AddNew(acc, xs) then AddNew(acc, xs) else AddNew(acc, xs) + [x]
    decreases |xs|
  {
    if xs == [] {
      assert xs + [x] == [x];
    } else {
      assert (xs + [x])[0] == xs[0] && (xs + [x])[1..] == xs[1..] + [x];
      AddNewSnoc(if xs[0] in acc then acc else acc + [xs[0]], xs[1..], x);
    }
  }

  /** for (i = min; i <= max; i++): append what is not marked yet. The test of the count never stops
      an unmarked number. */
  method AppendRange(values: array<nat>, marked: array<bool>, count0: nat, lo: nat, hi: nat, ghost acc: seq<nat>)
    returns (count: nat)
    requires values.Length >= marked.Length && lo < marked.Length && hi < marked.Length
    requires count0 == |acc| && Marks(acc, marked[..]) && count0 <= values.Length && values[..count0] == acc
    modifies values, marked
    ensures count <= marked.Length && values[..count] == AddNew(acc, Interval(lo, hi))
    ensures Marks(AddNew(acc, Interval(lo, hi)), marked[..])
  {
    hide AddNew, Marks, Interval;
    ghost var xs := Interval(lo, hi);
    count := count0;
    Pigeonhole(acc, marked[..]);
    ghost var now := acc;
    var i := lo;
    AddNewNothing(acc);
    assert xs[..0] == [];
    while i <= hi
      invariant lo <= i <= lo + |xs|
      invariant count == |now| <= marked.Length && values[..count] == now && Marks(now, marked[..])
      invariant now == AddNew(acc, xs[..i - lo])
    {
      AddNewStep(acc, xs, i - lo);
      MarkOf(now, marked[..], i);
      if count < marked.Length {
        if !marked[i] {
          Append(values, marked, count, i, now);
          now := now + [i];
          count := count + 1;
        }
      }
      i := i + 1;
    }
    assert xs[..i - lo] == xs;
    Pigeonhole(now, marked[..]);
  }

  lemma AddNewStep(acc: seq<nat>, xs: seq<nat>, k: nat)
    requires k < |xs|
    ensures AddNew(acc, xs[..k + 1])
         == if xs[k] in AddNew(acc, xs[..k]) then AddNew(acc, xs[..k]) else AddNew(acc, xs[..k]) + [xs[k]]
  {
    TakeSnoc(xs, k);
    AddNewSnoc(acc, xs[..k], xs[k]);
  }

  lemma MarkOf(acc: seq<nat>, marked: seq<bool>, i: nat)
    requires Marks(acc, marked) && i < |marked|
    ensures marked[i] <==> i in acc
    ensures |acc| <= |marked| && (|acc| == |marked| ==> i in acc)
    ensures i !in acc ==> |acc| < |marked|
  {
    Pigeonhole(acc, marked);
  }

  lemma AddNewNothing(acc: seq<nat>)
    ensures AddNew(acc, []) == acc
  {
  }

  method Append(values: array<nat>, marked: array<bool>, count: nat, i: nat, ghost acc: seq<nat>)
    requires count == |acc| < values.Length && i < marked.Length && !marked[i]
    requires Marks(acc, marked[..]) && values[..count] == acc
    modifies values, marked
    ensures values[..count + 1] == acc + [i] && Marks(acc + [i], marked[..])
  {
    values[count] := i;
    marked[i] := true;
  }

  /** parse_port_list: on any text the result is that of the specification, in the caller's array. */
  method ParsePortList(list: Option<string>, values: array?<nat>, maxsize: nat) returns (count: nat)
    requires maxsize < INT_LIMIT && (values != null ==> values.Length >= maxsize)
    modifies values
    ensures list.None? || values == null ==> count == 0
    ensures list.Some? && values != null ==>
      count <= maxsize && values[..count] == Parse(list.value, None, [], maxsize)
  {
    hide Parse, Strtol, SkipBlanks, AddNew, Marks, Interval, IsSuffix, ToInt;
    if list.None? || values == null {
      return 0;
    }
    var s, i := list.value, 0;
    var marked := new bool[maxsize](_ => false);
    ghost var acc: seq<nat> := [];
    var min: Option<nat> := None;
    count := 0;
    NoMarks(marked[..]);
    assert s[0..] == s;
    while true
      invariant i <= |s| && fresh(marked) && marked.Length == maxsize
      invariant min.Some? ==> min.value < maxsize
      invariant count == |acc| <= maxsize && values[..count] == acc && Marks(acc, marked[..])
      invariant Parse(s[i..], min, acc, maxsize) == Parse(s, None, [], maxsize)
      decreases |s| - i
    {
      ParseUnfold(s[i..], min, acc, maxsize);
      i := SkipBlanksAt(s, i);
      if i == |s| {
        break;
      }
      var long, end, erange := StrtolAt(s, i);
      var value := ToInt(long);
      if erange {
        return 0;
      }
      if value < 0 || value >= maxsize {
        return 0;
      }
      end := SkipBlanksAt(s, end);
      if end < |s| && s[end] == '-' && min.None? {
        min := Some(value);
      } else if end == |s| || s[end] == ',' {
        count := AppendRange(values, marked, count, if min.Some? then min.value else value, value, acc);
        acc := AddNew(acc, Interval(if min.Some? then min.value else value, value));
        min := None;
      } else {
        return 0;
      }
      if end == |s| {
        break;
      }
      assert s[end..][1..] == s[end + 1..];
      i := end + 1;
    }
  }

  lemma ParseUnfold(s: string, lo: Option<nat>, acc: seq<nat>, maxsize: nat)
    ensures var t := SkipBlanks(s); var l := Strtol(t); var value := ToInt(l.value); var e := SkipBlanks(l.rest);
      Parse(s, lo, acc, maxsize) ==
        if t == [] then acc
        else if l.range || value < 0 || value >= maxsize then []
        else if e != [] && e[0] == '-' && lo.None? then Parse(e[1..], Some(value), acc, maxsize)
        else if e == [] then AddNew(acc, Interval(if lo.Some? then lo.value else value, value))
        else if e[0] == ',' then
          Parse(e[1..], None, AddNew(acc, Interval(if lo.Some? then lo.value else value, value)), maxsize)
        else []
  {
    hide SkipBlanks, Strtol, ToInt, AddNew, Interval;
  }

  lemma NoMarks(marked: seq<bool>)
    requires forall i :: 0 <= i < |marked| ==> !marked[i]
    ensures Marks([], marked)
  {
  }

  /** Distinct ports below the limit. */
  predicate Sound(acc: seq<nat>, maxsize: nat) {
    && (forall k :: 0 <= k < |acc| ==> acc[k] < maxsize)
    && forall j, k :: 0 <= j < k < |acc| ==> acc[j] != acc[k]
  }

  lemma {:induction false} AddNewSound(acc: seq<nat>, xs: seq<nat>, maxsize: nat)
    requires Sound(acc, maxsize) && forall k :: 0 <= k < |xs| ==> xs[k] < maxsize
    ensures Sound(AddNew(acc, xs), maxsize)
    decreases |xs|
  {
    if xs != [] {
      AddNewSound(if xs[0] in acc then acc else acc + [xs[0]], xs[1..], maxsize);
    }
  }

  /** On any text at all the ports returned are distinct and below the limit. */
  lemma {:induction false} ParseSound(s: string, lo: Option<nat>, acc: seq<nat>, maxsize: nat)
    requires Sound(acc, maxsize) && (lo.Some? ==> lo.value < maxsize)
    ensures Sound(Parse(s, lo, acc, maxsize), maxsize)
    decreases |s|
  {
    hide Parse, Strtol, AddNew, ToInt;
    ParseUnfold(s, lo, acc, maxsize);
    var l := Strtol(SkipBlanks(s));
    var value, e := ToInt(l.value), SkipBlanks(l.rest);
    if 0 <= value < maxsize {
      var xs := Interval(if lo.Some? then lo.value else value, value);
      AddNewSound(acc, xs, maxsize);
      if e != [] {
        if e[0] == '-' && lo.None? {
          ParseSound(e[1..], Some(value), acc, maxsize);
        }
        ParseSound(e[1..], None, AddNew(acc, xs), maxsize);
      }
    }
  }

  // ---------- well-formed lists ----------

  /** A number as written: blanks, digits, blanks. */
  datatype Num = Num(pre: string, digits: string, post: string)
  datatype Entry = Empty(blanks: string) | Single(n: Num) | Range(lo: Num, hi: Num)

  predicate AllBlank(s: string) {
    forall i :: 0 <= i < |s| ==> IsBlank(s[i])
  }

  predicate AllDigits(s: string) {
    s != [] && forall i :: 0 <= i < |s| ==> IsDigit(s[i])
  }

  predicate WellFormedNum(n: Num) {
    AllBlank(n.pre) && AllDigits(n.digits) && AllBlank(n.post)
  }

  predicate WellFormed(e: Entry) {
    match e
    case Empty(b) => AllBlank(b)
    case Single(n) => WellFormedNum(n)
    case Range(lo, hi) => WellFormedNum(lo) && WellFormedNum(hi)
  }

  predicate WellFormedList(es: seq<Entry>) {
    es != [] && forall e :: e in es ==> WellFormed(e)
  }

  function NumText(n: Num): string {
    n.pre + n.digits + n.post
  }

  function EntryText(e: Entry): string {
    match e
    case Empty(b) => b
    case Single(n) => NumText(n)
    case Range(lo, hi) => NumText(lo) + "-" + NumText(hi)
  }

  /** The entries, separated by commas. */
  function Text(es: seq<Entry>): string
    requires es != []
  {
    if |es| == 1 then EntryText(es[0]) else EntryText(es[0]) + "," + Text(es[1..])
  }

  // ---------- what a list means, and what the parser reads ----------

  /** Every number written is below the limit. */
  predicate InRange(e: Entry, maxsize: nat) {
    match e
    case Empty(_) => true
    case Single(n) => DecValue(n.digits) < maxsize
    case Range(lo, hi) => DecValue(lo.digits) < maxsize && DecValue(hi.digits) < maxsize
  }

  predicate AllInRange(es: seq<Entry>, maxsize: nat) {
    forall e :: e in es ==> InRange(e, maxsize)
  }

  /** The ports an entry stands for. */
  function Ports(e: Entry): seq<nat> {
    match e
    case Empty(_) => []
    case Single(n) => [DecValue(n.digits)]
    case Range(lo, hi) => Interval(DecValue(lo.digits), DecValue(hi.digits))
  }

  function AllPorts(es: seq<Entry>): seq<nat> {
    if es == [] then [] else Ports(es[0]) + AllPorts(es[1..])
  }

  /** What a list promises: its ports without repetitions, or nothing if a number reaches the limit. */
  function Intended(es: seq<Entry>, maxsize: nat): seq<nat> {
    if AllInRange(es, maxsize) then AddNew([], AllPorts(es)) else []
  }

  /** The value of a number once it is in an int, if that is not negative. */
  function Wrapped(v: nat): nat {
    v % 0x1_0000_0000
  }

  /** The parser goes on after this number. */
  predicate Taken(v: nat, maxsize: nat) {
    v < LONG_LIMIT && Wrapped(v) < maxsize
  }

  predicate EntryTaken(e: Entry, last: bool, maxsize: nat) {
    match e
    case Empty(_) => last || maxsize > 0
    case Single(n) => Taken(DecValue(n.digits), maxsize)
    case Range(lo, hi) => Taken(DecValue(lo.digits), maxsize) && Taken(DecValue(hi.digits), maxsize)
  }

  predicate AllTaken(es: seq<Entry>, maxsize: nat) {
    es != [] ==> EntryTaken(es[0], |es| == 1, maxsize) && AllTaken(es[1..], maxsize)
  }

  /** The ports the parser takes from an entry: numbers wrapped, and port 0 for an empty item that a
      comma follows. */
  function PortsRead(e: Entry, last: bool): seq<nat> {
    match e
    case Empty(_) => if last then [] else [0]
    case Single(n) => [Wrapped(DecValue(n.digits))]
    case Range(lo, hi) => Interval(Wrapped(DecValue(lo.digits)), Wrapped(DecValue(hi.digits)))
  }

  function AllRead(es: seq<Entry>): seq<nat> {
    if es == [] then [] else PortsRead(es[0], |es| == 1) + AllRead(es[1..])
  }

  lemma {:induction false} SkipBlanksOver(b: string, x: string)
    requires AllBlank(b) && (x != [] ==> !IsBlank(x[0]))
    ensures SkipBlanks(b + x) == x
  {
    if b == [] {
      assert b + x == x;
    } else {
      assert (b + x)[1..] == b[1..] + x;
      SkipBlanksOver(b[1..], x);
    }
  }

  lemma {:induction false} DigitRunOver(d: string, x: string)
    requires forall i :: 0 <= i < |d| ==> IsDigit(d[i])
    requires x != [] ==> !IsDigit(x[0])
    ensures DigitRun(d + x) == |d|
  {
    if d == [] {
      assert d + x == x;
    } else {
      assert (d + x)[1..] == d[1..] + x;
      DigitRunOver(d[1..], x);
    }
  }

  predicate Separator(x: string) {
    x != [] ==> x[0] == ',' || x[0] == '-'
  }

  lemma StrtolDigits(d: string, y: string)
    requires AllDigits(d) && (y != [] ==> !IsDigit(y[0]))
    ensures Strtol(d + y) == Long(DecValue(d), y, DecValue(d) >= LONG_LIMIT)
  {
    hide DecValue;
    var t := d + y;
    DigitRunOver(d, y);
    assert IsDigit(t[0]) && SkipSpaces(t) == t && AfterSign(t) == t;
    assert t[..|d|] == d && t[|d|..] == y;
  }

  /** The sign test, the limit test and the conversion, on a number written in digits. */
  lemma TakenIff(v: nat, maxsize: nat)
    requires maxsize < INT_LIMIT
    ensures v < LONG_LIMIT && 0 <= ToInt(v) < maxsize <==> Taken(v, maxsize)
    ensures Taken(v, maxsize) ==> ToInt(v) == Wrapped(v)
  {
  }

  /** How the parser reads one number in front of a separator or the end. */
  lemma ReadNum(n: Num, x: string)
    requires WellFormedNum(n) && Separator(x)
    ensures var t := SkipBlanks(NumText(n) + x); var l := Strtol(t); var v := DecValue(n.digits);
      t != [] && l == Long(v, n.post + x, v >= LONG_LIMIT) && SkipBlanks(l.rest) == x
  {
    hide Strtol, SkipBlanks, DecValue;
    var y := n.post + x;
    assert y != [] ==> !IsDigit(y[0]);
    assert NumText(n) + x == n.pre + (n.digits + y);
    assert (n.digits + y)[0] == n.digits[0];
    SkipBlanksOver(n.pre, n.digits + y);
    SkipBlanksOver(n.post, x);
    StrtolDigits(n.digits, y);
  }

  lemma StrtolComma(x: string)
    requires x != [] && x[0] == ','
    ensures Strtol(x) == Long(0, x, false)
  {
  }

  /** How the parser reads one entry. */
  lemma ReadEntry(e: Entry, x: string, acc: seq<nat>, maxsize: nat)
    requires WellFormed(e) && (x != [] ==> x[0] == ',') && maxsize < INT_LIMIT
    ensures Parse(EntryText(e) + x, None, acc, maxsize)
         == if !EntryTaken(e, x == [], maxsize) then []
            else if x == [] then AddNew(acc, PortsRead(e, true))
            else Parse(x[1..], None, AddNew(acc, PortsRead(e, false)), maxsize)
  {
    hide Parse, Strtol, SkipBlanks, NumText, WellFormedNum, ToInt, DecValue, Taken, Wrapped;
    match e
    case Empty(b) =>
      SkipBlanksOver(b, x);
      ParseUnfold(b + x, None, acc, maxsize);
      if x != [] {
        StrtolComma(x);
        SkipBlanksOver([], x);
        assert [] + x == x && Interval(0, 0) == [0];
        ToIntZero();
      }
    case Single(n) =>
      var v := DecValue(n.digits);
      ReadNum(n, x);
      TakenIff(v, maxsize);
      ParseUnfold(NumText(n) + x, None, acc, maxsize);
      assert Interval(Wrapped(v), Wrapped(v)) == [Wrapped(v)];
    case Range(lo, hi) =>
      ReadRange(lo, hi, x, acc, maxsize);
  }

  lemma ToIntZero()
    ensures ToInt(0) == 0
  {
  }

  lemma ReadRange(lo: Num, hi: Num, x: string, acc: seq<nat>, maxsize: nat)
    requires WellFormedNum(lo) && WellFormedNum(hi) && (x != [] ==> x[0] == ',') && maxsize < INT_LIMIT
    ensures var v, w := DecValue(lo.digits), DecValue(hi.digits);
      Parse(NumText(lo) + "-" + NumText(hi) + x, None, acc, maxsize)
         == if !Taken(v, maxsize) || !Taken(w, maxsize) then []
            else if x == [] then AddNew(acc, Interval(Wrapped(v), Wrapped(w)))
            else Parse(x[1..], None, AddNew(acc, Interval(Wrapped(v), Wrapped(w))), maxsize)
  {
    hide Parse, Strtol, SkipBlanks, NumText, WellFormedNum, AddNew, ToInt, DecValue, Taken, Wrapped, Interval;
    var v, w := DecValue(lo.digits), DecValue(hi.digits);
    var y := "-" + (NumText(hi) + x);
    assert NumText(lo) + "-" + NumText(hi) + x == NumText(lo) + y && y[1..] == NumText(hi) + x;
    TakenIff(v, maxsize);
    TakenIff(w, maxsize);
    ReadNum(lo, y);
    ParseUnfold(NumText(lo) + y, None, acc, maxsize);
    if Taken(v, maxsize) {
      ReadNum(hi, x);
      ParseUnfold(NumText(hi) + x, Some(Wrapped(v)), acc, maxsize);
    }
  }

  lemma {:induction false} AddNewAppend(acc: seq<nat>, a: seq<nat>, b: seq<nat>)
    ensures AddNew(acc, a + b) == AddNew(AddNew(acc, a), b)
    decreases |a|
  {
    if a == [] {
      assert a + b == b;
    } else {
      assert (a + b)[0] == a[0] && (a + b)[1..] == a[1..] + b;
      AddNewAppend(if a[0] in acc then acc else acc + [a[0]], a[1..], b);
    }
  }

  /** What the parser returns for a list of numbers, ranges and empty items, whatever their size. */
  lemma {:induction false} ParseText(es: seq<Entry>, acc: seq<nat>, maxsize: nat)
    requires WellFormedList(es) && maxsize < INT_LIMIT
    ensures Parse(Text(es), None, acc, maxsize) == if AllTaken(es, maxsize) then AddNew(acc, AllRead(es)) else []
  {
    hide Parse, EntryText, WellFormed, EntryTaken, AddNew, PortsRead;
    var e := es[0];
    if |es| == 1 {
      ReadEntry(e, [], acc, maxsize);
      assert EntryText(e) + [] == EntryText(e) && es[1..] == [];
      assert AllRead(es[1..]) == [] && PortsRead(e, true) + [] == PortsRead(e, true);
    } else {
      var x := "," + Text(es[1..]);
      assert Text(es) == EntryText(e) + x && x[1..] == Text(es[1..]);
      ReadEntry(e, x, acc, maxsize);
      ParseText(es[1..], AddNew(acc, PortsRead(e, false)), maxsize);
      AddNewAppend(acc, PortsRead(e, false), AllRead(es[1..]));
    }
  }

  function FirstAt(xs: seq<nat>, x: nat): (i: nat)
    requires x in xs
    ensures i < |xs| && xs[i] == x && x !in xs[..i]
  {
    if xs[0] == x then 0
    else
      assert forall j :: 0 <= j < |xs| && xs[j] == x ==> xs[1..][j - 1] == x;
      1 + FirstAt(xs[1..], x)
  }

  /** What "without repetitions" means: the same numbers, each once, in the order in which they first
      occur. */
  lemma {:induction false} DedupMeaning(xs: seq<nat>)
    ensures var r := AddNew([], xs);
      && (forall x :: x in r <==> x in xs)
      && forall j, k :: 0 <= j < k < |r| ==> r[j] in xs && r[k] in xs && FirstAt(xs, r[j]) < FirstAt(xs, r[k])
  {
    if xs != [] {
      var init, x := xs[..|xs| - 1], xs[|xs| - 1];
      assert xs == init + [x];
      DedupMeaning(init);
      AddNewSnoc([], init, x);
      var r := AddNew([], init);
      forall y | y in init
        ensures FirstAt(xs, y) == FirstAt(init, y)
      {
        FirstAtUnique(xs, y, FirstAt(init, y));
      }
      if x !in init {
        FirstAtUnique(xs, x, |xs| - 1);
      }
    }
  }

  lemma FirstAtUnique(xs: seq<nat>, x: nat, i: nat)
    requires i < |xs| && xs[i] == x && x !in xs[..i]
    ensures FirstAt(xs, x) == i
  {
    var f := FirstAt(xs, x);
    forall j | 0 <= j < i
      ensures xs[j] != x
    {
      assert xs[..i][j] == xs[j];
    }
    forall j | 0 <= j < f
      ensures xs[j] != x
    {
      assert xs[..f][j] == xs[j];
    }
  }

  // ---------- when the parser keeps the promise ----------

  /** The first port of `q` that is not in `p` is 0. */
  predicate ZeroNext(p: seq<nat>, q: seq<nat>) {
    q != [] && if q[0] in p then ZeroNext(p, q[1..]) else q[0] == 0
  }

  /** Port 0 is named before the first empty item that a comma follows, or is the first new port named
      after it; `p` holds the ports named so far. */
  predicate GapsHarmless(es: seq<Entry>, p: seq<nat>) {
    if |es| < 2 then true
    else if es[0].Empty? then 0 in p || ZeroNext(p, AllPorts(es[1..]))
    else GapsHarmless(es[1..], p + Ports(es[0]))
  }

  /** Everything read is an empty range. */
  predicate ReadsNothing(es: seq<Entry>) {
    es != [] ==>
      && (match es[0]
          case Empty(_) => |es| == 1
          case Single(_) => false
          case Range(lo, hi) => Wrapped(DecValue(lo.digits)) > Wrapped(DecValue(hi.digits)))
      && ReadsNothing(es[1..])
  }

  predicate KeepsPromise(es: seq<Entry>, maxsize: nat) {
    || maxsize == 0
    || if AllInRange(es, maxsize) then GapsHarmless(es, []) else !AllTaken(es, maxsize) || ReadsNothing(es)
  }

  lemma {:induction false} NothingRead(es: seq<Entry>)
    ensures AllRead(es) == [] <==> ReadsNothing(es)
  {
    if es != [] {
      NothingRead(es[1..]);
    }
  }

  lemma {:induction false} AddNewPrefix(acc: seq<nat>, xs: seq<nat>)
    ensures acc <= AddNew(acc, xs)
    ensures forall x :: x in AddNew(acc, xs) <==> x in acc || x in xs
    decreases |xs|
  {
    if xs != [] {
      AddNewPrefix(if xs[0] in acc then acc else acc + [xs[0]], xs[1..]);
    }
  }

  /** Putting 0 in front of the ports `q` shows unless 0 is the first new one of them. */
  lemma {:induction false} ZeroFirst(acc: seq<nat>, q: seq<nat>)
    requires 0 !in acc
    ensures AddNew(acc + [0], q) == AddNew(acc, q) <==> ZeroNext(acc, q)
    decreases |q|
  {
    if q != [] {
      if q[0] in acc {
        ZeroFirst(acc, q[1..]);
      } else if q[0] != 0 {
        AddNewPrefix(acc + [0], q);
        AddNewPrefix(acc + [q[0]], q[1..]);
        assert AddNew(acc + [0], q)[|acc|] == 0 && AddNew(acc, q)[|acc|] == q[0];
      }
    }
  }

  lemma {:induction false} ZeroNextSame(p: seq<nat>, acc: seq<nat>, q: seq<nat>)
    requires forall x :: x in p <==> x in acc
    ensures ZeroNext(p, q) == ZeroNext(acc, q)
  {
    if q != [] {
      ZeroNextSame(p, acc, q[1..]);
    }
  }

  /** Numbers below the limit are taken as they are written. */
  lemma InRangeTaken(e: Entry, last: bool, maxsize: nat)
    requires InRange(e, maxsize) && 0 < maxsize < INT_LIMIT
    ensures EntryTaken(e, last, maxsize)
    ensures !e.Empty? || last ==> PortsRead(e, last) == Ports(e)
  {
    hide Wrapped, DecValue, Interval;
    match e
    case Empty(_) =>
    case Single(n) => SmallTaken(DecValue(n.digits), maxsize);
    case Range(lo, hi) =>
      SmallTaken(DecValue(lo.digits), maxsize);
      SmallTaken(DecValue(hi.digits), maxsize);
  }

  lemma SmallTaken(v: nat, maxsize: nat)
    requires v < maxsize < INT_LIMIT
    ensures Taken(v, maxsize) && Wrapped(v) == v
  {
    DivModUnique(v, 0x1_0000_0000, 0, v);
  }

  lemma {:induction false} AllInRangeTaken(es: seq<Entry>, maxsize: nat)
    requires AllInRange(es, maxsize) && 0 < maxsize < INT_LIMIT
    ensures AllTaken(es, maxsize)
  {
    hide InRange, EntryTaken;
    if es != [] {
      InRangeTaken(es[0], |es| == 1, maxsize);
      AllInRangeTaken(es[1..], maxsize);
    }
  }

  /** Once 0 is among the ports, empty items add nothing. */
  lemma {:induction false} GapsAddNothing(es: seq<Entry>, acc: seq<nat>, maxsize: nat)
    requires AllInRange(es, maxsize) && 0 < maxsize < INT_LIMIT && 0 in acc
    ensures AddNew(acc, AllRead(es)) == AddNew(acc, AllPorts(es))
  {
    hide InRange, Ports, PortsRead, AddNew;
    if es != [] {
      var e, last := es[0], |es| == 1;
      InRangeTaken(e, last, maxsize);
      AddNewAppend(acc, PortsRead(e, last), AllRead(es[1..]));
      AddNewAppend(acc, Ports(e), AllPorts(es[1..]));
      EmptyAddsNothing(e, last, acc);
      AddNewPrefix(acc, Ports(e));
      GapsAddNothing(es[1..], AddNew(acc, Ports(e)), maxsize);
    }
  }

  lemma EmptyAddsNothing(e: Entry, last: bool, acc: seq<nat>)
    ensures e.Empty? && 0 in acc ==> AddNew(acc, PortsRead(e, last)) == AddNew(acc, Ports(e))
    ensures e.Empty? && !last && 0 !in acc ==> AddNew(acc, PortsRead(e, last)) == acc + [0]
    ensures e.Empty? ==> AddNew(acc, Ports(e)) == acc && Ports(e) == []
  {
  }

  /** On numbers below the limit the parser is right exactly if its reading of empty items as port 0
      does not show. */
  lemma {:induction false} GapsIff(es: seq<Entry>, p: seq<nat>, acc: seq<nat>, maxsize: nat)
    requires AllInRange(es, maxsize) && 0 < maxsize < INT_LIMIT && es != []
    requires forall x :: x in p <==> x in acc
    ensures AddNew(acc, AllRead(es)) == AddNew(acc, AllPorts(es)) <==> GapsHarmless(es, p)
  {
    hide InRange, Ports, PortsRead, AddNew, ZeroNext;
    var e, last, rest := es[0], |es| == 1, es[1..];
    InRangeTaken(e, last, maxsize);
    AddNewAppend(acc, PortsRead(e, last), AllRead(rest));
    AddNewAppend(acc, Ports(e), AllPorts(rest));
    EmptyAddsNothing(e, last, acc);
    if |es| < 2 {
      assert rest == [];
    } else if e.Empty? {
      if 0 in acc {
        GapsAddNothing(rest, acc, maxsize);
      } else {
        GapsAddNothing(rest, acc + [0], maxsize);
        ZeroFirst(acc, AllPorts(rest));
        ZeroNextSame(p, acc, AllPorts(rest));
      }
    } else {
      AddNewPrefix(acc, Ports(e));
      GapsIff(rest, p + Ports(e), AddNew(acc, Ports(e)), maxsize);
    }
  }

  lemma NoRoomNothing(acc: seq<nat>, maxsize: nat)
    requires Sound(acc, maxsize)
    ensures acc == [] || maxsize > 0
  {
    assert acc == [] || acc[0] < maxsize;
  }

  lemma {:induction false} NoRoomNoPorts(es: seq<Entry>)
    requires AllInRange(es, 0)
    ensures AllPorts(es) == []
  {
    if es != [] {
      assert InRange(es[0], 0);
      NoRoomNoPorts(es[1..]);
    }
  }

  /** Exactly when a list of numbers, ranges and empty items gives what it promises. If every number
      written is below the limit: when no empty item before a comma shows. If some is not: when some
      number is past the range of long or not below the limit even modulo 2^32, or only empty ranges are
      read. */
  lemma AsIntendedIff(es: seq<Entry>, maxsize: nat)
    requires WellFormedList(es) && maxsize < INT_LIMIT
    ensures Parse(Text(es), None, [], maxsize) == Intended(es, maxsize) <==> KeepsPromise(es, maxsize)
  {
    hide Parse, Text, WellFormedList, GapsHarmless, AllTaken, AllRead, ReadsNothing, AllInRange, AllPorts, AddNew;
    NonEmptyList(es);
    ParseText(es, [], maxsize);
    AddNewPrefix([], AllRead(es));
    if maxsize == 0 {
      ParseSound(Text(es), None, [], 0);
      NoRoomNothing(Parse(Text(es), None, [], 0), 0);
      if AllInRange(es, 0) {
        NoRoomNoPorts(es);
        AddNewNothing([]);
      }
    } else if AllInRange(es, maxsize) {
      AllInRangeTaken(es, maxsize);
      GapsIff(es, [], [], maxsize);
    } else {
      NothingRead(es);
      AddNewNothing([]);
      if AllRead(es) != [] {
        assert AllRead(es)[0] in AddNew([], AllRead(es));
      }
    }
  }

  lemma NonEmptyList(es: seq<Entry>)
    requires WellFormedList(es)
    ensures es != []
  {
  }

  // ---------- failing texts ----------

  /** A number from the limit up whose value modulo 2^32 is below it is taken for a port. */
  lemma NumberWraps(n: Num, maxsize: nat)
    requires WellFormedNum(n) && maxsize < INT_LIMIT
    requires maxsize <= DecValue(n.digits) < LONG_LIMIT && Wrapped(DecValue(n.digits)) < maxsize
    ensures Parse(NumText(n), None, [], maxsize) == [Wrapped(DecValue(n.digits))]
    ensures Intended([Single(n)], maxsize) == []
  {
    hide Parse, DecValue, NumText, WellFormedNum, Wrapped;
    ReadEntry(Single(n), [], [], maxsize);
    assert NumText(n) + [] == NumText(n);
    assert !InRange(Single(n), maxsize);
  }

  lemma DecAdd(d: string, c: char)
    requires IsDigit(c)
    ensures DecValue(d + [c]) == 10 * DecValue(d) + (c as int - '0' as int)
  {
    assert (d + [c])[..|d|] == d;
  }

  lemma FirstDigits()
    ensures DecValue("42949") == 42949
  {
    assert DecValue("") == 0;
    hide DecValue;
    DecAdd("", '4');
    DecAdd("" + ['4'], '2');
    DecAdd("" + ['4'] + ['2'], '9');
    DecAdd("" + ['4'] + ['2'] + ['9'], '4');
    DecAdd("" + ['4'] + ['2'] + ['9'] + ['4'], '9');
    assert "" + ['4'] + ['2'] + ['9'] + ['4'] + ['9'] == "42949";
  }

  lemma Digits2To32()
    ensures DecValue("4294967296") == 0x1_0000_0000
  {
    hide DecValue;
    FirstDigits();
    DecAdd("42949", '6');
    DecAdd("42949" + ['6'], '7');
    DecAdd("42949" + ['6'] + ['7'], '2');
    DecAdd("42949" + ['6'] + ['7'] + ['2'], '9');
    DecAdd("42949" + ['6'] + ['7'] + ['2'] + ['9'], '6');
    assert "42949" + ['6'] + ['7'] + ['2'] + ['9'] + ['6'] == "4294967296";
  }

  /** 2^32, for example, is read as port 0. */
  lemma NumberWrapsAt2To32(maxsize: nat)
    requires 0 < maxsize < INT_LIMIT
    ensures Parse("4294967296", None, [], maxsize) == [0]
  {
    hide DecValue, Parse;
    Digits2To32();
    var n := Num("", "4294967296", "");
    assert NumText(n) == "4294967296" by {
      assert "" + "4294967296" + "" == "4294967296";
    }
    NumberWraps(n, maxsize);
  }

  /** An item that is empty and not the last is read as port 0. */
  lemma EmptyItem(b: string, x: string, acc: seq<nat>, maxsize: nat)
    requires AllBlank(b) && 0 < maxsize < INT_LIMIT
    ensures Parse(b + "," + x, None, acc, maxsize) == Parse(x, None, AddNew(acc, [0]), maxsize)
  {
    hide Parse, AddNew;
    assert b + "," + x == EntryText(Empty(b)) + ("," + x) && ("," + x)[1..] == x;
    ReadEntry(Empty(b), "," + x, acc, maxsize);
  }

  // ---------- signs ----------

  lemma {:induction false} SpacesOver(w: string, x: string)
    requires (forall i :: 0 <= i < |w| ==> IsSpace(w[i])) && x != [] && !IsSpace(x[0])
    ensures SkipSpaces(w + x) == x && SkipBlanks(w + x) != [] && SkipSpaces(SkipBlanks(w + x)) == x
  {
    if w == [] {
      assert w + x == x;
    } else {
      assert (w + x)[1..] == w[1..] + x;
      SpacesOver(w[1..], x);
    }
  }

  lemma StrtolSigned(t: string, minus: bool, d: string)
    requires AllDigits(d) && SkipSpaces(t) == (if minus then "-" else "+") + d
    ensures var long: int := if minus then 0 - DecValue(d) else DecValue(d);
      Strtol(t) == Long(long, [], !(-LONG_LIMIT <= long < LONG_LIMIT))
  {
    hide DecValue, SkipSpaces;
    var u := SkipSpaces(t);
    assert u[1..] == d && AfterSign(u) == d;
    DigitRunOver(d, []);
    assert d + [] == d && d[..|d|] == d && d[|d|..] == [];
  }

  /** A number with a sign in front of it, behind any white space: its negative if the sign is a minus, in
      32 bits, if it is in the range of long. So "-0" is port 0 and "-4294967295" is port 1. */
  lemma SignedNumber(w: string, minus: bool, d: string, maxsize: nat)
    requires (forall i :: 0 <= i < |w| ==> IsSpace(w[i])) && AllDigits(d) && maxsize < INT_LIMIT
    ensures var v := DecValue(d);
      var long: int := if minus then 0 - v else v;
      var n := long % 0x1_0000_0000;
      Parse(w + (if minus then "-" else "+") + d, None, [], maxsize)
      == if n < maxsize && -0x8000_0000_0000_0000 <= long < 0x8000_0000_0000_0000 then [n] else []
  {
    hide Parse, SkipBlanks, DecValue, SkipSpaces, Strtol, ToInt, AddNew, Interval, IsSpace;
    var sign := if minus then "-" else "+";
    var s := w + (sign + d);
    assert w + sign + d == s;
    assert !IsSpace(sign[0]) && (sign + d)[0] == sign[0] by { SignsAreNoSpaces(); }
    SpacesOver(w, sign + d);
    StrtolSigned(SkipBlanks(s), minus, d);
    ParseUnfold(s, None, [], maxsize);
    NoBlanks();
    var long: int := if minus then 0 - DecValue(d) else DecValue(d);
    SignedInt(long, maxsize);
    OnePort(long % 0x1_0000_0000);
  }

  lemma SignsAreNoSpaces()
    ensures !IsSpace('-') && !IsSpace('+')
  {
  }

  lemma NoBlanks()
    ensures SkipBlanks([]) == []
  {
  }

  lemma SignedInt(long: int, maxsize: nat)
    requires maxsize < INT_LIMIT
    ensures 0 <= ToInt(long) < maxsize <==> long % 0x1_0000_0000 < maxsize
    ensures 0 <= ToInt(long) < maxsize ==> ToInt(long) == long % 0x1_0000_0000
  {
  }

  lemma OnePort(n: nat)
    ensures AddNew([], Interval(n, n)) == [n]
  {
    assert Interval(n, n) == [n];
  }
}
