/**
 Editing the packed boot arguments: do_adjust, bootstrap_arg_adjust and
 bootstrap_env_adjust of qnx_guests/src/hardware/startup/lib/bootstrap_cmdline.c.

 The entry sits at index `at` of a byte memory: size_lo, size_hi, argc, envc, four
 bytes of header address, then argc strings, envc strings and trailing bytes.
 */
module BootArgs {
  import opened Common

  type Text = s: seq<byte> | NoNul(s) witness []

  predicate NoNul(s: seq<byte>) {
    forall i :: 0 <= i < |s| ==> s[i] != 0
  }

  const HEADER: nat := 8          // offsetof(struct bootargs_entry, args)
  const ARGC: nat := 2
  const ENVC: nat := 3
  const SIZE_WRAP: nat := 0x1_0000

  /** NUL-terminated strings one after another. */
  function Pack(list: seq<Text>): (bytes: seq<byte>)
    decreases |list|
  {
    if list == [] then [] else list[0] + [0] + Pack(list[1..])
  }

  lemma {:induction false} PackAppend(a: seq<Text>, b: seq<Text>)
    ensures Pack(a + b) == Pack(a) + Pack(b)
    decreases |a|
  {
    if a == [] {
      assert a + b == b;
    } else {
      assert (a + b)[1..] == a[1..] + b;
      PackAppend(a[1..], b);
    }
  }

  lemma PackOne(t: Text)
    ensures Pack([t]) == t + [0]
  {
    assert [t][1..] == [];
  }

  function Size(mem: seq<byte>, at: nat): nat
    requires at + HEADER <= |mem|
  {
    mem[at] as nat + 256 * mem[at + 1] as nat
  }

  /** The list after the edit; None where do_adjust returns 0 and changes nothing.
      Editing null into null is not a list edit: see NullIntoNull. */
  function Edit(list: seq<Text>, old_: Option<Text>, new_: Option<Text>): Option<seq<Text>>
    requires old_.Some? || new_.Some?
  {
    if old_.None? then Some(list + [new_.value])
    else
      var k := FirstMatch(list, old_.value);
      if k == |list| then None
      else Some(list[..k] + (if new_.Some? then [new_.value] else []) + list[k + 1..])
  }

  /** The index of the first string equal to `t`, or the length. */
  function FirstMatch(list: seq<Text>, t: Text): (k: nat)
    ensures k <= |list|
    ensures k < |list| ==> list[k] == t
    ensures forall i :: 0 <= i < k ==> list[i] != t
    decreases |list|
  {
    if list == [] then 0
    else if list[0] == t then 0
    else 1 + FirstMatch(list[1..], t)
  }

  method MemCpy(mem: array<byte>, dst: nat, data: seq<byte>)
    requires dst + |data| <= mem.Length
    modifies mem
    ensures mem[..] == old(mem[..dst]) + data + old(mem[dst + |data|..])
  {
    for i := 0 to |data|
      invariant forall j :: 0 <= j < mem.Length ==>
                  mem[j] == if dst <= j < dst + i then data[j - dst] else old(mem[j])
    {
      mem[dst + i] := data[i];
    }
  }

  /** memmove: the source range as it was, whether or not the ranges overlap. */
  method MemMove(mem: array<byte>, dst: nat, src: nat, n: nat)
    requires dst + n <= mem.Length && src + n <= mem.Length
    modifies mem
    ensures mem[..] == old(mem[..dst] + mem[src..src + n] + mem[dst + n..])
  {
    MemCpy(mem, dst, mem[src..src + n]);
  }

  /** strlen of the string that starts the bytes at p. */
  method StrLen(mem: array<byte>, p: nat, ghost t: Text) returns (n: nat)
    requires p + |t| < mem.Length && mem[p + |t|] == 0
    requires forall i :: 0 <= i < |t| ==> mem[p + i] == t[i]
    ensures n == |t|
  {
    n := 0;
    while mem[p + n] != 0
      invariant n <= |t|
      invariant n < |t| ==> mem[p + n] == t[n] != 0
      decreases |t| - n
    {
      n := n + 1;
    }
  }

  /** The bytes from p to `end` are the packed strings of `list`, then `rest`. */
  ghost predicate PackedAt(mem: seq<byte>, p: nat, end: nat, list: seq<Text>, rest: seq<byte>) {
    p <= end <= |mem| && mem[p..end] == Pack(list) + rest
  }

  lemma FirstString(mem: seq<byte>, p: nat, end: nat, list: seq<Text>, rest: seq<byte>)
    requires PackedAt(mem, p, end, list, rest) && list != []
    ensures var q := p + |list[0]| + 1;
            && q <= end
            && mem[p..p + |list[0]|] == list[0] && mem[p + |list[0]|] == 0
            && PackedAt(mem, q, end, list[1..], rest)
  {
    var t := list[0];
    var all := t + [0] + Pack(list[1..]) + rest;
    assert mem[p..end] == all;
    assert all[..|t|] == t && all[|t|] == 0 && all[|t| + 1..] == Pack(list[1..]) + rest;
    assert mem[p..p + |t|] == mem[p..end][..|t|];
    assert mem[p + |t| + 1..end] == mem[p..end][|t| + 1..];
  }

  /** Where `list` is searched up to its first match, or passed over. */
  lemma PassOver(mem: seq<byte>, p: nat, end: nat, list: seq<Text>, k: nat, rest: seq<byte>)
    requires PackedAt(mem, p, end, list, rest) && k <= |list|
    ensures var q := p + |Pack(list[..k])|;
            && q <= end
            && PackedAt(mem, q, end, list[k..], rest)
  {
    assert list == list[..k] + list[k..];
    PackAppend(list[..k], list[k..]);
    var n := |Pack(list[..k])|;
    assert mem[p + n..end] == mem[p..end][n..];
  }

  /** Stepping over one more string. */
  lemma OneMore(list: seq<Text>, k: nat)
    requires k < |list|
    ensures |Pack(list[..k + 1])| == |Pack(list[..k])| + |list[k]| + 1
  {
    assert list[..k + 1] == list[..k] + [list[k]];
    PackAppend(list[..k], [list[k]]);
    PackOne(list[k]);
  }

  function AddLength(new_: Option<Text>): nat {
    if new_.Some? then |new_.value| + 1 else 0
  }

  function Inserted(new_: Option<Text>): seq<byte> {
    if new_.Some? then new_.value + [0] else []
  }

  /** `sub` bytes at p have given way to `new_`, and what followed up to `end` has moved. */
  ghost predicate SplicedTo(m0: seq<byte>, m1: seq<byte>, p: nat, sub: nat, end: nat, new_: seq<byte>) {
    var diff := |new_| - sub;
    && p + sub <= end <= |m0| == |m1| && end + diff <= |m0|
    && m1[..p] == m0[..p]
    && m1[p..end + diff] == new_ + m0[p + sub..end]
    && m1[end + diff..] == m0[end + diff..]
  }

  /** memmove then memcpy splice: nothing memmove drags in from before p survives. */
  lemma MoveCopySplices(m0: seq<byte>, p: nat, sub: nat, end: nat, new_: seq<byte>, m1: seq<byte>, m2: seq<byte>)
    requires var diff := |new_| - sub;
             && p + sub <= end <= |m0| && 0 <= p - diff && end + diff <= |m0|
             && m1 == m0[..p] + m0[p - diff..end] + m0[end + diff..]
    requires |m1| == |m0| && p + |new_| <= |m1| && m2 == m1[..p] + new_ + m1[p + |new_|..]
    ensures SplicedTo(m0, m2, p, sub, end, new_)
  {
    var diff := |new_| - sub;
    assert m2[..p] == m1[..p] == m0[..p];
    var k := p + |new_|;
    assert m2[k..] == m1[k..];
    assert m1[k..end + diff] == m0[p + sub..end];
    assert m2[k..end + diff] == m1[k..end + diff];
    assert m2[p..end + diff] == m2[p..k] + m2[k..end + diff];
    assert m2[end + diff..] == m1[end + diff..] == m0[end + diff..];
  }

  // ---- the edit -------------------------------------------------------------------------

  /** The whole arguments area: the strings passed over, the list edited, and the rest. */
  ghost predicate Area(mem: seq<byte>, at: nat, end: nat, before: seq<Text>, list: seq<Text>, rest: seq<byte>) {
    PackedAt(mem, at + HEADER, end, before + list, rest)
  }

  function Delta(old_: Option<Text>, new_: Option<Text>): int {
    if old_.None? then AddLength(new_) else AddLength(new_) - (|old_.value| + 1)
  }

  function CountStep(old_: Option<Text>, new_: Option<Text>): int {
    if new_.None? then -1 else if old_.None? then 1 else 0
  }

  function Wrapped(count: int): byte {
    (count % 256) as byte
  }

  /** `*countp` assigned to an unsigned: the sign of an int8_t is carried into 32 bits. */
  function Unsigned(count: byte): nat {
    if count < 128 then count as nat else 0x1_0000_0000 - 256 + count as nat
  }

  /** Whether the search ends inside the list: its count is not negative, or the string is found
      before the count matters. */
  predicate Searched(list: seq<Text>, old_: Option<Text>) {
    |list| < 128 || (|list| < 256 && old_.Some? && FirstMatch(list, old_.value) < |list|)
  }

  /** A search over `num` strings that start with `list` looks at no others. */
  predicate Ends(num: nat, list: seq<Text>, old_: Option<Text>) {
    num == |list| || (|list| < num && old_.Some? && FirstMatch(list, old_.value) < |list|)
  }

  lemma SearchEnds(list: seq<Text>, old_: Option<Text>)
    requires Searched(list, old_)
    ensures Ends(Unsigned(Wrapped(|list|)), list, old_)
  {
    hide FirstMatch;
  }

  /** An argument search that runs on, its count read as a huge unsigned, into the environment. */
  predicate RunsOn(args: seq<Text>, envs: seq<Text>, old_: Option<Text>) {
    && 128 <= |args| < 256 && old_.Some?
    && old_.value !in args && old_.value in envs
  }

  lemma RunOnEnds(args: seq<Text>, envs: seq<Text>, old_: Option<Text>)
    requires RunsOn(args, envs, old_) && |args + envs| < SIZE_WRAP
    ensures Ends(Unsigned(Wrapped(|args|)), args + envs, old_)
    ensures Applies(args + envs, old_)
  {
    var k :| 0 <= k < |envs| && envs[k] == old_.value;
    assert (args + envs)[|args| + k] == old_.value;
    assert Unsigned(Wrapped(|args|)) >= SIZE_WRAP;
  }

  lemma {:induction false} PackIsLonger(list: seq<Text>)
    ensures |list| <= |Pack(list)|
    decreases |list|
  {
    if list != [] {
      PackIsLonger(list[1..]);
    }
  }

  /** Pass over `start` strings. */
  method PassStart(mem: array<byte>, at: nat, ghost end: nat, start: nat,
                   ghost before: seq<Text>, ghost list: seq<Text>, ghost rest: seq<byte>) returns (p: nat)
    requires end <= mem.Length && Area(mem[..], at, end, before, list, rest) && start == |before|
    ensures p == at + HEADER + |Pack(before)|
  {
    assert Pack(before[..0]) == [];
    hide Pack;
    ghost var area := at + HEADER;
    ghost var all := before + list;
    p := at + HEADER;
    var i := 0;
    while i != start
      invariant i <= start && p == area + |Pack(before[..i])|
      decreases start - i
    {
      assert all[..i] == before[..i] && all[i] == before[i];
      p := SkipString(mem, p, area, end, all, i, rest);
      OneMore(before, i);
      i := i + 1;
    }
    assert before[..start] == before;
  }

  /** Find the string, as do_adjust does: pass over `start` strings, then search `num`. */
  method Find(mem: array<byte>, at: nat, ghost end: nat, old_: Option<Text>, start: nat, num: nat,
              ghost before: seq<Text>, ghost list: seq<Text>, ghost rest: seq<byte>)
    returns (p: nat, sub: nat, found: bool)
    requires end <= mem.Length && Area(mem[..], at, end, before, list, rest)
    requires start == |before| && Ends(num, list, old_)
    ensures ghost var k := if old_.None? then |list| else FirstMatch(list, old_.value);
            && p == at + HEADER + |Pack(before)| + |Pack(list[..k])|
            && found == (old_.None? || k < |list|)
            && sub == if k < |list| then |list[k]| + 1 else 0
  {
    assert Pack(list[..0]) == [];
    hide Pack;
    hide FirstMatch;
    ghost var area := at + HEADER;
    ghost var all := before + list;
    p := PassStart(mem, at, end, start, before, list, rest);
    var j := 0;
    while j != num
      invariant j <= |list| && p == area + |Pack(before)| + |Pack(list[..j])|
      invariant old_.Some? ==> forall i :: 0 <= i < j ==> list[i] != old_.value
      decreases num - j
    {
      assert j < |list|;
      SplitBeyond(before, list, j);
      PackAppend(before, list[..j]);
      var len := MeasureString(mem, p, area, end, all, start + j, rest);
      if old_.Some? && mem[p..p + len] == old_.value {
        FirstMatchIs(list, old_.value, j);
        return p, len + 1, true;
      }
      OneMore(list, j);
      p := p + len + 1;
      j := j + 1;
    }
    if old_.Some? {
      FirstMatchIs(list, old_.value, |list|);
    }
    return p, 0, old_.None?;
  }

  lemma SplitBeyond<T>(a: seq<T>, b: seq<T>, k: nat)
    requires k < |b|
    ensures (a + b)[|a| + k] == b[k]
    ensures (a + b)[..|a| + k] == a + b[..k] && (a + b)[|a| + k + 1..] == b[k + 1..]
  {
  }

  lemma {:induction false} FirstMatchIs(list: seq<Text>, t: Text, k: nat)
    requires k <= |list| && (k < |list| ==> list[k] == t)
    requires forall i :: 0 <= i < k ==> list[i] != t
    ensures FirstMatch(list, t) == k
    decreases |list|
  {
    if k > 0 {
      FirstMatchIs(list[1..], t, k - 1);
    }
  }

  /** The k-th string of the area is at p, and its length is what strlen says. */
  method MeasureString(mem: array<byte>, p: nat, ghost area: nat, ghost end: nat, ghost all: seq<Text>,
                       ghost k: nat, ghost rest: seq<byte>)
    returns (len: nat)
    requires end <= mem.Length && PackedAt(mem[..], area, end, all, rest)
    requires k < |all| && p == area + |Pack(all[..k])|
    ensures len == |all[k]| && p + len < end && mem[p..p + len] == all[k]
  {
    PassOver(mem[..], area, end, all, k, rest);
    FirstString(mem[..], p, end, all[k..], rest);
    ghost var t := all[k];
    forall i | 0 <= i < |t| ensures mem[p + i] == t[i] {
      assert mem[..][p..p + |t|][i] == t[i];
    }
    len := StrLen(mem, p, t);
    assert mem[p..p + len] == mem[..][p..p + |t|];
  }

  method SkipString(mem: array<byte>, p: nat, ghost area: nat, ghost end: nat, ghost all: seq<Text>,
                    ghost k: nat, ghost rest: seq<byte>)
    returns (q: nat)
    requires end <= mem.Length && PackedAt(mem[..], area, end, all, rest)
    requires k < |all| && p == area + |Pack(all[..k])|
    ensures q == p + |all[k]| + 1
  {
    var len := MeasureString(mem, p, area, end, all, k, rest);
    q := p + len + 1;
  }

  /** Some operation is done: `old` is null, or it is in the list. */
  predicate Applies(list: seq<Text>, old_: Option<Text>) {
    old_.None? || FirstMatch(list, old_.value) < |list|
  }

  /** The list as the bytes hold it afterwards; editing null into null moves no byte. */
  function Result(list: seq<Text>, old_: Option<Text>, new_: Option<Text>): seq<Text>
    requires Applies(list, old_)
  {
    if old_.None? && new_.None? then list else Edit(list, old_, new_).value
  }

  /** The caller's side: room to grow, and readable bytes below for memmove to drag in. */
  ghost predicate Room(mem: seq<byte>, at: nat, end: nat, list: seq<Text>, old_: Option<Text>, new_: Option<Text>) {
    Applies(list, old_) ==> end + Delta(old_, new_) <= |mem| && Delta(old_, new_) <= at + HEADER
  }

  lemma ResultPacks(before: seq<Text>, list: seq<Text>, old_: Option<Text>, new_: Option<Text>)
    requires Applies(list, old_)
    ensures var k := if old_.None? then |list| else FirstMatch(list, old_.value);
            var after := if old_.None? then [] else list[k + 1..];
            && Pack(before + Result(list, old_, new_)) == Pack(before) + Pack(list[..k]) + Inserted(new_) + Pack(after)
            && Pack(before + list)
               == Pack(before) + Pack(list[..k]) + Inserted(old_) + Pack(after)
  {
    var k := if old_.None? then |list| else FirstMatch(list, old_.value);
    var after := if old_.None? then [] else list[k + 1..];
    var put := if new_.Some? then [new_.value] else [];
    var taken := if old_.Some? then [old_.value] else [];
    assert list == list[..k] + taken + after;
    assert Result(list, old_, new_) == list[..k] + put + after;
    if new_.Some? { PackOne(new_.value); }
    if old_.Some? { PackOne(old_.value); }
    PackThree(before, list[..k], put, after);
    PackThree(before, list[..k], taken, after);
  }

  lemma PackThree(before: seq<Text>, a: seq<Text>, b: seq<Text>, c: seq<Text>)
    ensures Pack(before + (a + b + c)) == Pack(before) + Pack(a) + Pack(b) + Pack(c)
  {
    PackAppend(before, a + b + c);
    PackAppend(a + b, c);
    PackAppend(a, b);
  }

  method Splice(mem: array<byte>, p: nat, sub: nat, end: nat, new_: seq<byte>)
    requires p + sub <= end <= mem.Length
    requires |new_| - sub <= p && end + |new_| - sub <= mem.Length
    modifies mem
    ensures SplicedTo(old(mem[..]), mem[..], p, sub, end, new_)
  {
    hide SplicedTo;
    ghost var m0 := mem[..];
    var src := p - (|new_| - sub);
    MemMove(mem, p, src, end - src);
    ghost var m1 := mem[..];
    MoveResult(m0, m1, p, src, end);
    if |new_| > 0 {
      MemCpy(mem, p, new_);
    } else {
      NothingPut(m1, p);
    }
    MoveCopySplices(m0, p, sub, end, new_, m1, mem[..]);
  }

  lemma NothingPut<T>(s: seq<T>, p: nat)
    requires p <= |s|
    ensures s == s[..p] + [] + s[p..]
  {
  }

  lemma MoveResult(m0: seq<byte>, m1: seq<byte>, p: nat, src: nat, end: nat)
    requires src <= end <= |m0| && p + (end - src) <= |m0|
    requires m1 == m0[..p] + m0[src..src + (end - src)] + m0[p + (end - src)..]
    ensures m1 == m0[..p] + m0[src..end] + m0[end + p - src..]
    ensures |m1| == |m0|
  {
  }

  /** The bytes at the front of the entry after an operation. */
  ghost predicate FrontAdjusted(m0: seq<byte>, m1: seq<byte>, at: nat, countAt: nat, total: int, count: byte) {
    && at + HEADER <= |m0| == |m1|
    && at + 1 < countAt < at + HEADER
    && Size(m1, at) == total % SIZE_WRAP
    && m1[countAt] == count
    && forall i :: 0 <= i < at + HEADER && i != at && i != at + 1 && i != countAt ==> m1[i] == m0[i]
  }

  /** The whole effect of one operation on the bytes. */
  ghost predicate OperatedTo(m0: seq<byte>, m1: seq<byte>, at: nat, p: nat, sub: nat, countAt: nat,
                             put: seq<byte>, count: byte) {
    && at + HEADER <= p && p + sub <= |m0| == |m1|
    && var end := at + Size(m0, at);
       var stop := end + |put| - sub;
       && p + sub <= end <= |m0| && stop <= |m0|
       && FrontAdjusted(m0, m1, at, countAt, Size(m0, at) + |put| - sub, count)
       && m1[at + HEADER..p] == m0[at + HEADER..p]
       && m1[p..stop] == put + m0[p + sub..end]
       && m1[stop..] == m0[stop..]
  }

  /** The stores in order: the count, the spliced bytes, the two halves of the size. */
  lemma StoresAdjust(m0: seq<byte>, m1: seq<byte>, m2: seq<byte>, m3: seq<byte>, at: nat, countAt: nat,
                     p: nat, sub: nat, put: seq<byte>, count: byte, total: nat)
    requires at + HEADER <= p <= |m0| && at + 1 < countAt < at + HEADER
    requires m1 == m0[countAt := count] && SplicedTo(m1, m2, p, sub, at + Size(m0, at), put)
    requires total == Size(m0, at) + |put| - sub
    requires m3 == m2[at := (total % 256) as byte][at + 1 := (total / 256 % 256) as byte]
    ensures OperatedTo(m0, m3, at, p, sub, countAt, put, count)
  {
    var end := at + Size(m0, at);
    var stop := end + |put| - sub;
    forall i | 0 <= i < p ensures m2[i] == m1[i] {
      assert m2[..p][i] == m1[..p][i];
    }
    assert m3[p..stop] == m2[p..stop] && m1[p + sub..end] == m0[p + sub..end];
    assert m3[stop..] == m2[stop..] && m1[stop..] == m0[stop..];
    SplitSize(total);
  }

  /** The string's place in the area, as three stretches. */
  lemma AreaSplits(m0: seq<byte>, at: nat, end: nat, before: seq<Text>, list: seq<Text>, rest: seq<byte>,
                   old_: Option<Text>, new_: Option<Text>, k: nat)
    returns (prefix: seq<byte>, gone: seq<byte>, put: seq<byte>, suffix: seq<byte>)
    requires Area(m0, at, end, before, list, rest) && Applies(list, old_)
    requires k == if old_.None? then |list| else FirstMatch(list, old_.value)
    ensures m0[at + HEADER..end] == prefix + gone + suffix
    ensures Pack(before + Result(list, old_, new_)) + rest == prefix + put + suffix
    ensures |prefix| == |Pack(before)| + |Pack(list[..k])|
    ensures |gone| == |Inserted(old_)| && put == Inserted(new_)
  {
    ResultPacks(before, list, old_, new_);
    var after := if old_.None? then [] else list[k + 1..];
    prefix, gone, put, suffix := Pack(before) + Pack(list[..k]), Inserted(old_), Inserted(new_), Pack(after) + rest;
    Regroup(Pack(before), Pack(list[..k]), gone, Pack(after), rest);
    Regroup(Pack(before), Pack(list[..k]), put, Pack(after), rest);
  }

  lemma Regroup(a: seq<byte>, b: seq<byte>, c: seq<byte>, d: seq<byte>, e: seq<byte>)
    ensures a + b + c + d + e == (a + b) + c + (d + e)
  {
  }

  /** The spliced area holds the edited list. */
  lemma AreaEdited(m0: seq<byte>, m1: seq<byte>, at: nat, p: nat, sub: nat, countAt: nat, count: byte,
                   before: seq<Text>, list: seq<Text>, rest: seq<byte>,
                   old_: Option<Text>, new_: Option<Text>, k: nat, put: seq<byte>, stop: nat)
    requires at + HEADER <= |m0| && Area(m0, at, at + Size(m0, at), before, list, rest) && Applies(list, old_)
    requires k == if old_.None? then |list| else FirstMatch(list, old_.value)
    requires p == at + HEADER + |Pack(before)| + |Pack(list[..k])| && sub == |Inserted(old_)|
    requires put == Inserted(new_) && stop == at + Size(m0, at) + |put| - sub
    requires OperatedTo(m0, m1, at, p, sub, countAt, put, count)
    ensures Area(m1, at, stop, before, Result(list, old_, new_), rest)
    ensures stop - at >= HEADER
  {
    var prefix, gone, put', suffix := AreaSplits(m0, at, at + Size(m0, at), before, list, rest, old_, new_, k);
    BytesEdited(m0, m1, at, p, sub, countAt, count, prefix, gone, put, suffix);
  }

  /** Operating at the place found leaves the edited list. */
  lemma OperationEdits(m0: seq<byte>, m1: seq<byte>, at: nat, p: nat, sub: nat, countAt: nat, count: byte,
                       before: seq<Text>, list: seq<Text>, rest: seq<byte>,
                       old_: Option<Text>, new_: Option<Text>, k: nat)
    requires at + HEADER <= |m0| && Area(m0, at, at + Size(m0, at), before, list, rest) && Applies(list, old_)
    requires k == if old_.None? then |list| else FirstMatch(list, old_.value)
    requires p == at + HEADER + |Pack(before)| + |Pack(list[..k])| && sub == |Inserted(old_)|
    requires countAt < |m0| && count == Wrapped(m0[countAt] as int + CountStep(old_, new_))
    requires OperatedTo(m0, m1, at, p, sub, countAt, Inserted(new_), count)
    ensures AdjustedTo(m0, m1, at, countAt, old_, new_, before, list, rest)
  {
    hide Area;
    hide Result;
    hide Inserted;
    hide FrontAdjusted;
    hide Pack;
    hide Applies;
    DeltaIs(old_, new_);
    AreaEdited(m0, m1, at, p, sub, countAt, count, before, list, rest, old_, new_, k,
               Inserted(new_), at + Size(m0, at) + Delta(old_, new_));
  }

  lemma DeltaIs(old_: Option<Text>, new_: Option<Text>)
    ensures Delta(old_, new_) == |Inserted(new_)| - |Inserted(old_)|
  {
  }

  lemma BytesEdited(m0: seq<byte>, m1: seq<byte>, at: nat, p: nat, sub: nat, countAt: nat, count: byte,
                    prefix: seq<byte>, gone: seq<byte>, put: seq<byte>, suffix: seq<byte>)
    requires at + HEADER <= |m0| && OperatedTo(m0, m1, at, p, sub, countAt, put, count)
    requires m0[at + HEADER..at + Size(m0, at)] == prefix + gone + suffix
    requires p == at + HEADER + |prefix| && sub == |gone|
    ensures m1[at + HEADER..at + Size(m0, at) + |put| - sub] == prefix + put + suffix
    ensures Size(m0, at) + |put| - sub >= HEADER
  {
    SplicedArea(m0, m1, at + HEADER, p, sub, at + Size(m0, at), |put| - sub, prefix, gone, put, suffix);
  }

  /** The label do_operation: the string was found at p, or the place to add one. */
  method Operate(mem: array<byte>, at: nat, p: nat, sub: nat, countAt: nat, old_: Option<Text>, new_: Option<Text>)
    requires at + HEADER <= p <= mem.Length && at + 1 < countAt < at + HEADER
    requires var end, add := at + Size(mem[..], at), |Inserted(new_)|;
             p + sub <= end <= mem.Length && add - sub <= p && end + add - sub <= mem.Length
    modifies mem
    ensures OperatedTo(old(mem[..]), mem[..], at, p, sub, countAt, Inserted(new_),
                       Wrapped(old(mem[countAt]) as int + CountStep(old_, new_)))
  {
    hide OperatedTo;
    hide SplicedTo;
    hide Pack;
    ghost var m0 := mem[..];
    var total: int := mem[at] as nat + 256 * mem[at + 1] as nat;
    StepCount(mem, countAt, old_, new_);
    ghost var m1 := mem[..];
    var put := if new_.Some? then new_.value + [0] else [];
    Splice(mem, p, sub, at + total, put);
    ghost var m2 := mem[..];
    total := total + |put| - sub;
    StoreSize(mem, at, total);
    StoresAdjust(m0, m1, m2, mem[..], at, countAt, p, sub, put, m1[countAt], total);
  }

  method StoreSize(mem: array<byte>, at: nat, total: nat)
    requires at + 1 < mem.Length
    modifies mem
    ensures mem[..] == old(mem[..])[at := (total % 256) as byte][at + 1 := (total / 256 % 256) as byte]
  {
    mem[at] := (total % 256) as byte;
    mem[at + 1] := (total / 256 % 256) as byte;
  }

  method StepCount(mem: array<byte>, countAt: nat, old_: Option<Text>, new_: Option<Text>)
    requires countAt < mem.Length
    modifies mem
    ensures mem[..] == old(mem[..])[countAt := Wrapped(old(mem[countAt]) as int + CountStep(old_, new_))]
  {
    if new_.None? {
      mem[countAt] := ((mem[countAt] as int - 1) % 256) as byte;
    } else if old_.None? {
      mem[countAt] := ((mem[countAt] as int + 1) % 256) as byte;
    }
  }

  method DoAdjust(mem: array<byte>, at: nat, old_: Option<Text>, new_: Option<Text>, start: nat, countAt: nat,
                  ghost before: seq<Text>, ghost list: seq<Text>, ghost rest: seq<byte>)
    returns (changed: bool)
    requires at + HEADER <= mem.Length && (countAt == at + ARGC || countAt == at + ENVC)
    requires Area(mem[..], at, at + Size(mem[..], at), before, list, rest)
    requires Room(mem[..], at, at + Size(mem[..], at), list, old_, new_)
    requires start == |before| && Ends(Unsigned(mem[countAt]), list, old_)
    modifies mem
    ensures changed == Applies(list, old_)
    ensures !changed ==> mem[..] == old(mem[..])
    ensures changed ==> AdjustedTo(old(mem[..]), mem[..], at, countAt, old_, new_, before, list, rest)
  {
    hide Pack;
    hide OperatedTo;
    hide AdjustedTo;
    ghost var m0 := mem[..];
    var total: int := mem[at] as nat + 256 * mem[at + 1] as nat;
    var p, sub, found := Find(mem, at, at + total, old_, start, Unsigned(mem[countAt]), before, list, rest);
    if !found {
      return false;
    }
    ghost var k := if old_.None? then |list| else FirstMatch(list, old_.value);
    FoundInside(m0, at, at + total, before, list, k, rest);
    Operate(mem, at, p, sub, countAt, old_, new_);
    OperationEdits(m0, mem[..], at, p, sub, countAt, Wrapped(m0[countAt] as int + CountStep(old_, new_)),
                   before, list, rest, old_, new_, k);
    return true;
  }

  /** What an operation leaves: the edited list, the size and the count kept in step with
      it (within their widths), and every other byte as it was. */
  ghost predicate AdjustedTo(m0: seq<byte>, m1: seq<byte>, at: nat, countAt: nat, old_: Option<Text>, new_: Option<Text>,
                             before: seq<Text>, list: seq<Text>, rest: seq<byte>)
    requires at + HEADER <= |m0| && Applies(list, old_) && countAt < |m0|
  {
    var total := Size(m0, at) + Delta(old_, new_);
    && total >= HEADER
    && FrontAdjusted(m0, m1, at, countAt, total, Wrapped(m0[countAt] as int + CountStep(old_, new_)))
    && Area(m1, at, at + total, before, Result(list, old_, new_), rest)
    && m1[at + total..] == m0[at + total..]
  }

  /** The found string lies inside the area. */
  lemma FoundInside(mem: seq<byte>, at: nat, end: nat, before: seq<Text>, list: seq<Text>, k: nat, rest: seq<byte>)
    requires k <= |list| && Area(mem, at, end, before, list, rest)
    ensures at + HEADER + |Pack(before)| + |Pack(list[..k])| + (if k < |list| then |list[k]| + 1 else 0) <= end
  {
    PackAppend(before, list);
    assert list == list[..k] + list[k..];
    PackAppend(list[..k], list[k..]);
  }

  lemma CountSteps(count: nat, step: int)
    ensures Wrapped(Wrapped(count) as int + step) == Wrapped(count + step)
  {
  }

  lemma SplitSize(total: nat)
    ensures total % 256 + 256 * (total / 256 % 256) == total % SIZE_WRAP
  {
  }

  /** Prefix, removed bytes, suffix become prefix, inserted bytes, suffix. */
  lemma SplicedArea(m0: seq<byte>, m1: seq<byte>, area: nat, p: nat, sub: nat, end: nat, diff: int,
                    prefix: seq<byte>, gone: seq<byte>, new_: seq<byte>, suffix: seq<byte>)
    requires area <= p && p + sub <= end <= |m0| == |m1| && 0 <= end + diff <= |m0| && diff == |new_| - sub
    requires m0[area..end] == prefix + gone + suffix && |prefix| == p - area && |gone| == sub
    requires m1[area..p] == m0[area..p] && m1[p..end + diff] == new_ + m0[p + sub..end]
    ensures m1[area..end + diff] == prefix + new_ + suffix
  {
    assert m0[area..p] == m0[area..end][..p - area] == prefix;
    assert m0[p + sub..end] == m0[area..end][p + sub - area..] == suffix;
    assert m1[area..end + diff] == m1[area..p] + m1[p..end + diff];
  }

  // ---- the two entry points -----------------------------------------------------------------

  /** `total` bytes that hold the two lists and whatever trails them. */
  ghost predicate Layout(mem: seq<byte>, at: nat, total: nat, args: seq<Text>, envs: seq<Text>, trailing: seq<byte>) {
    && at + HEADER <= |mem|
    && PackedAt(mem, at + HEADER, at + total, args + envs, trailing)
    && mem[at + ARGC] == Wrapped(|args|)
    && mem[at + ENVC] == Wrapped(|envs|)
  }

  /** A layout whose size field is exact. */
  ghost predicate Held(mem: seq<byte>, at: nat, args: seq<Text>, envs: seq<Text>, trailing: seq<byte>) {
    at + HEADER <= |mem| && Layout(mem, at, Size(mem, at), args, envs, trailing)
  }

  /** One that can be read back: both counts are below 128. */
  ghost predicate Entry(mem: seq<byte>, at: nat, args: seq<Text>, envs: seq<Text>, trailing: seq<byte>) {
    Held(mem, at, args, envs, trailing) && |args| < 128 && |envs| < 128
  }

  lemma AreaOfArgs(mem: seq<byte>, at: nat, end: nat, args: seq<Text>, envs: seq<Text>, trailing: seq<byte>)
    ensures PackedAt(mem, at + HEADER, end, args + envs, trailing)
            <==> Area(mem, at, end, [], args, Pack(envs) + trailing)
  {
    PackAppend(args, envs);
    assert [] + args == args;
    assert Pack(args) + (Pack(envs) + trailing) == Pack(args) + Pack(envs) + trailing;
  }

  /** What an adjustment of either list promises its caller: the edited list in place, the
      other list and the trailing bytes as they were, the size kept in its 16 bits, and no byte touched outside. */
  ghost predicate Edited(m0: seq<byte>, m1: seq<byte>, at: nat, old_: Option<Text>, new_: Option<Text>,
                         args: seq<Text>, envs: seq<Text>, trailing: seq<byte>)
    requires at + HEADER <= |m0|
  {
    var total := Size(m0, at) + Delta(old_, new_);
    && total >= HEADER
    && |m1| == |m0|
    && Layout(m1, at, total, args, envs, trailing)
    && Size(m1, at) == total % SIZE_WRAP
    && (forall i :: 0 <= i < at || at + ENVC < i < at + HEADER ==> m1[i] == m0[i])
    && m1[at + total..] == m0[at + total..]
  }

  lemma ArgsEdited(m0: seq<byte>, m1: seq<byte>, at: nat, old_: Option<Text>, new_: Option<Text>,
                   args: seq<Text>, envs: seq<Text>, trailing: seq<byte>)
    requires Held(m0, at, args, envs, trailing) && Applies(args, old_) && (old_.Some? || new_.Some?)
    requires AdjustedTo(m0, m1, at, at + ARGC, old_, new_, [], args, Pack(envs) + trailing)
    ensures Edited(m0, m1, at, old_, new_, Edit(args, old_, new_).value, envs, trailing)
  {
    hide Pack;
    hide Area;
    hide PackedAt;
    var total := Size(m0, at) + Delta(old_, new_);
    CountSteps(|args|, CountStep(old_, new_));
    AreaOfArgs(m1, at, at + total, Result(args, old_, new_), envs, trailing);
  }

  lemma EnvsEdited(m0: seq<byte>, m1: seq<byte>, at: nat, old_: Option<Text>, new_: Option<Text>,
                   args: seq<Text>, envs: seq<Text>, trailing: seq<byte>)
    requires Held(m0, at, args, envs, trailing) && Applies(envs, old_) && (old_.Some? || new_.Some?)
    requires AdjustedTo(m0, m1, at, at + ENVC, old_, new_, args, envs, trailing)
    ensures Edited(m0, m1, at, old_, new_, args, Edit(envs, old_, new_).value, trailing)
  {
    CountSteps(|envs|, CountStep(old_, new_));
  }

  /** With the same area, size and surroundings only the count can differ. */
  lemma NullIntoNull(m0: seq<byte>, m1: seq<byte>, at: nat, countAt: nat,
                     before: seq<Text>, list: seq<Text>, rest: seq<byte>)
    requires at + HEADER <= |m0| && Area(m0, at, at + Size(m0, at), before, list, rest) && countAt < |m0|
    requires AdjustedTo(m0, m1, at, countAt, None, None, before, list, rest)
    ensures m1 == m0[countAt := Wrapped(m0[countAt] as int - 1)]
  {
    var end := at + Size(m0, at);
    assert m0[at] == m1[at] && m0[at + 1] == m1[at + 1];
    forall i | 0 <= i < |m0| && i != countAt ensures m1[i] == m0[i] {
      if i >= end {
        assert m1[end..][i - end] == m0[end..][i - end];
      } else if i >= at + HEADER {
        assert m1[at + HEADER..end][i - at - HEADER] == m0[at + HEADER..end][i - at - HEADER];
      }
    }
  }

  /** The strings an argument search looks at. */
  function Scanned(args: seq<Text>, envs: seq<Text>, old_: Option<Text>): seq<Text> {
    if RunsOn(args, envs, old_) then args + envs else args
  }

  lemma ScannedArea(mem: seq<byte>, at: nat, old_: Option<Text>, args: seq<Text>, envs: seq<Text>, trailing: seq<byte>)
    returns (rest: seq<byte>)
    requires Held(mem, at, args, envs, trailing) && (Searched(args, old_) || RunsOn(args, envs, old_))
    ensures rest == if RunsOn(args, envs, old_) then trailing else Pack(envs) + trailing
    ensures Area(mem, at, at + Size(mem, at), [], Scanned(args, envs, old_), rest)
    ensures Ends(Unsigned(mem[at + ARGC]), Scanned(args, envs, old_), old_)
    ensures RunsOn(args, envs, old_) ==> Applies(args + envs, old_)
  {
    hide Pack;
    if RunsOn(args, envs, old_) {
      rest := trailing;
      PackIsLonger(args + envs);
      assert |mem[at + HEADER..at + Size(mem, at)]| == |Pack(args + envs)| + |trailing|;
      RunOnEnds(args, envs, old_);
      assert [] + (args + envs) == args + envs;
    } else {
      rest := Pack(envs) + trailing;
      AreaOfArgs(mem, at, at + Size(mem, at), args, envs, trailing);
      SearchEnds(args, old_);
    }
  }

  /** bootstrap_arg_adjust edits the argument list alone, unless that has 128 strings or more
      without the one asked for and the environment has it: then the environment's is edited and
      the argument count stepped. */
  method ArgAdjust(mem: array<byte>, at: nat, old_: Option<Text>, new_: Option<Text>,
                   ghost args: seq<Text>, ghost envs: seq<Text>, ghost trailing: seq<byte>)
    returns (changed: bool)
    requires Held(mem[..], at, args, envs, trailing) && (Searched(args, old_) || RunsOn(args, envs, old_))
    requires Room(mem[..], at, at + Size(mem[..], at), Scanned(args, envs, old_), old_, new_)
    modifies mem
    ensures changed == (Applies(args, old_) || RunsOn(args, envs, old_))
    ensures !changed ==> mem[..] == old(mem[..])
    ensures Applies(args, old_) && (old_.Some? || new_.Some?) ==>
              Edited(old(mem[..]), mem[..], at, old_, new_, Edit(args, old_, new_).value, envs, trailing)
    ensures RunsOn(args, envs, old_) ==>
              && Applies(args + envs, old_)
              && AdjustedTo(old(mem[..]), mem[..], at, at + ARGC, old_, new_, [], args + envs, trailing)
    ensures old_.None? && new_.None? ==> mem[..] == old(mem[..])[at + ARGC := Wrapped(|args| - 1)]
  {
    hide Pack;
    hide AdjustedTo;
    hide FirstMatch;
    hide Edited;
    hide Layout;
    ghost var m0 := mem[..];
    LayoutCounts(m0, at, args, envs, trailing);
    ghost var rest := ScannedArea(m0, at, old_, args, envs, trailing);
    changed := DoAdjust(mem, at, old_, new_, 0, at + ARGC, [], Scanned(args, envs, old_), rest);
    if changed && !RunsOn(args, envs, old_) {
      if old_.None? && new_.None? {
        NullIntoNull(m0, mem[..], at, at + ARGC, [], args, rest);
        CountSteps(|args|, -1);
      } else {
        ArgsEdited(m0, mem[..], at, old_, new_, args, envs, trailing);
      }
    }
  }

  lemma LayoutCounts(mem: seq<byte>, at: nat, args: seq<Text>, envs: seq<Text>, trailing: seq<byte>)
    requires Held(mem, at, args, envs, trailing)
    ensures at + HEADER <= |mem| && mem[at + ARGC] == Wrapped(|args|) && mem[at + ENVC] == Wrapped(|envs|)
    ensures PackedAt(mem, at + HEADER, at + Size(mem, at), args + envs, trailing)
  {
  }

  /** bootstrap_env_adjust edits the environment list alone. */
  method EnvAdjust(mem: array<byte>, at: nat, old_: Option<Text>, new_: Option<Text>,
                   ghost args: seq<Text>, ghost envs: seq<Text>, ghost trailing: seq<byte>)
    returns (changed: bool)
    requires Held(mem[..], at, args, envs, trailing) && |args| < 128 && Searched(envs, old_)
    requires Room(mem[..], at, at + Size(mem[..], at), envs, old_, new_)
    modifies mem
    ensures changed == Applies(envs, old_)
    ensures !changed ==> mem[..] == old(mem[..])
    ensures changed && (old_.Some? || new_.Some?) ==>
              Edited(old(mem[..]), mem[..], at, old_, new_, args, Edit(envs, old_, new_).value, trailing)
    ensures old_.None? && new_.None? ==> mem[..] == old(mem[..])[at + ENVC := Wrapped(|envs| - 1)]
  {
    ghost var m0 := mem[..];
    SearchEnds(envs, old_);
    changed := DoAdjust(mem, at, old_, new_, Unsigned(mem[at + ARGC]), at + ENVC, args, envs, trailing);
    if changed {
      if old_.None? && new_.None? {
        NullIntoNull(m0, mem[..], at, at + ENVC, args, envs, trailing);
        CountSteps(|envs|, -1);
      } else {
        EnvsEdited(m0, mem[..], at, old_, new_, args, envs, trailing);
      }
    }
  }

  /** The bytes of an entry with two arguments and one variable: size in two bytes, the low one
      first, the counts, four bytes of header address, and the strings, each with its NUL. */
  lemma EntryInBytes(low: byte, high: byte, address: seq<byte>, a: Text, b: Text, c: Text)
    requires |address| == 4 && low as nat + 256 * high as nat == 8 + |a| + 1 + |b| + 1 + |c| + 1
    ensures Entry([low, high, 2, 1] + address + (a + [0] + b + [0] + c + [0]), 0, [a, b], [c], [])
  {
    var front, strings := [low, high, 2, 1] + address, a + [0] + b + [0] + c + [0];
    var mem := front + strings;
    assert [a, b] + [c] == [a] + ([b] + [c]);
    PackAppend([a], [b] + [c]);
    PackAppend([b], [c]);
    PackOne(a);
    PackOne(b);
    PackOne(c);
    assert strings == (a + [0]) + ((b + [0]) + (c + [0]));
    assert strings + [] == strings;
    assert |mem| == 8 + |strings| == Size(mem, 0);
    assert mem[8..|mem|] == strings;
  }

  // ---- consequences ----------------------------------------------------------------------------

  /** After an edit the size field is exact if and only if the size still fits 16 bits; the memory
      then holds the new lists, as the next edit asks, and is an Entry if both counts are below 128. */
  lemma EditedAgainExactly(m0: seq<byte>, m1: seq<byte>, at: nat, old_: Option<Text>, new_: Option<Text>,
                           args: seq<Text>, envs: seq<Text>, trailing: seq<byte>)
    requires at + HEADER <= |m0| && Edited(m0, m1, at, old_, new_, args, envs, trailing)
    ensures Held(m1, at, args, envs, trailing) <==> Size(m0, at) + Delta(old_, new_) < SIZE_WRAP
    ensures Entry(m1, at, args, envs, trailing)
            <==> Size(m0, at) + Delta(old_, new_) < SIZE_WRAP && |args| < 128 && |envs| < 128
  {
    hide Pack;
    hide PackedAt;
    hide Delta;
    assert 0 <= Size(m1, at) < SIZE_WRAP;
    if Held(m1, at, args, envs, trailing) {
      LayoutEnds(m1, at, Size(m1, at), Size(m0, at) + Delta(old_, new_), args, envs, trailing);
    }
  }

  lemma LayoutEnds(mem: seq<byte>, at: nat, a: nat, b: nat, args: seq<Text>, envs: seq<Text>, trailing: seq<byte>)
    requires Layout(mem, at, a, args, envs, trailing) && Layout(mem, at, b, args, envs, trailing)
    ensures a == b
  {
    hide Pack;
    assert |mem[at + HEADER..at + a]| == |mem[at + HEADER..at + b]|;
  }

  /** Every byte up to the end of the entry is the same, the bytes up to the end of the entry with
      t added are the tail of that longer entry, and what is behind is the same. */
  ghost predicate BackWithTail(m0: seq<byte>, m2: seq<byte>, at: nat, t: Text,
                               args: seq<Text>, envs: seq<Text>, trailing: seq<byte>)
    requires at + HEADER <= |m0|
  {
    var end, n := at + Size(m0, at), |t| + 1;
    var long := Pack(args + [t] + envs) + trailing;
    && end + n <= |m2| == |m0| && n <= |long|
    && m2[..end] == m0[..end]
    && m2[end..end + n] == long[|long| - n..]
    && m2[end + n..] == m0[end + n..]
  }

  /** Adding an argument and deleting it again. */
  method AddThenDeleteArg(mem: array<byte>, at: nat, t: Text, ghost args: seq<Text>, ghost envs: seq<Text>,
                          ghost trailing: seq<byte>)
    requires Entry(mem[..], at, args, envs, trailing) && t !in args && |args| < 127
    requires Size(mem[..], at) + |t| + 1 < SIZE_WRAP
    requires at + Size(mem[..], at) + |t| + 1 <= mem.Length && |t| + 1 <= at + HEADER
    modifies mem
    ensures BackWithTail(old(mem[..]), mem[..], at, t, args, envs, trailing)
  {
    hide Pack;
    hide PackedAt;
    hide Edited;
    hide FirstMatch;
    hide BackWithTail;
    hide Layout;
    ghost var m0 := mem[..];
    var _ := ArgAdjust(mem, at, None, Some(t), args, envs, trailing);
    ghost var m1 := mem[..];
    EditedAgainExactly(m0, m1, at, None, Some(t), args + [t], envs, trailing);
    FirstMatchIs(args + [t], t, |args|);
    AddThenDelete(args, t);
    assert Size(m1, at) == Size(m0, at) + |t| + 1 by {
      EditedSize(m0, m1, at, None, Some(t), args + [t], envs, trailing);
    }
    var _ := ArgAdjust(mem, at, Some(t), None, args + [t], envs, trailing);
    EditedBack(m0, m1, mem[..], at, t, args, envs, trailing);
  }

  lemma EditedSize(m0: seq<byte>, m1: seq<byte>, at: nat, old_: Option<Text>, new_: Option<Text>,
                   args: seq<Text>, envs: seq<Text>, trailing: seq<byte>)
    requires at + HEADER <= |m0| && Edited(m0, m1, at, old_, new_, args, envs, trailing)
    requires Size(m0, at) + Delta(old_, new_) < SIZE_WRAP
    ensures |m1| == |m0| && Size(m1, at) == Size(m0, at) + Delta(old_, new_)
  {
  }

  /** Where an edit has put its area, and what it left alone. */
  lemma EditedBytes(m0: seq<byte>, m1: seq<byte>, at: nat, old_: Option<Text>, new_: Option<Text>,
                    args: seq<Text>, envs: seq<Text>, trailing: seq<byte>, end: nat)
    requires at + HEADER <= |m0| && Edited(m0, m1, at, old_, new_, args, envs, trailing)
    requires end == at + Size(m0, at) + Delta(old_, new_)
    ensures at + HEADER <= end <= |m1| == |m0|
    ensures m1[at + HEADER..end] == Pack(args + envs) + trailing && m1[end..] == m0[end..]
    ensures forall i :: 0 <= i < at || at + ENVC < i < at + HEADER ==> m1[i] == m0[i]
    ensures m1[at + ARGC] == Wrapped(|args|) && m1[at + ENVC] == Wrapped(|envs|)
  {
    hide Pack;
  }

  lemma EditedBack(m0: seq<byte>, m1: seq<byte>, m2: seq<byte>, at: nat, t: Text,
                   args: seq<Text>, envs: seq<Text>, trailing: seq<byte>)
    requires at + HEADER <= |m0| == |m1|
    requires Entry(m0, at, args, envs, trailing) && Size(m1, at) == Size(m0, at) + |t| + 1
    requires Edited(m0, m1, at, None, Some(t), args + [t], envs, trailing)
    requires Edited(m1, m2, at, Some(t), None, args, envs, trailing)
    ensures BackWithTail(m0, m2, at, t, args, envs, trailing)
  {
    hide Pack;
    hide Edited;
    hide Layout;
    var end, n := at + Size(m0, at), |t| + 1;
    EditedSize(m1, m2, at, Some(t), None, args, envs, trailing);
    LayoutCounts(m0, at, args, envs, trailing);
    EditedBytes(m0, m1, at, None, Some(t), args + [t], envs, trailing, end + n);
    EditedBytes(m1, m2, at, Some(t), None, args, envs, trailing, end);
    SameFront(m0, m2, at);
    BackInPieces(m0, m1, m2, at, end, n, Pack(args + envs) + trailing, Pack(args + [t] + envs) + trailing);
  }

  lemma BackInPieces(m0: seq<byte>, m1: seq<byte>, m2: seq<byte>, at: nat, end: nat, n: nat,
                     short: seq<byte>, long: seq<byte>)
    requires at + HEADER <= end && end + n <= |m0| == |m1| == |m2| && n <= |long|
    requires m0[..at + HEADER] == m2[..at + HEADER] && m0[at + HEADER..end] == m2[at + HEADER..end] == short
    requires m1[at + HEADER..end + n] == long && m2[end..] == m1[end..] && m1[end + n..] == m0[end + n..]
    ensures m2[..end] == m0[..end]
    ensures m2[end..end + n] == long[|long| - n..]
    ensures m2[end + n..] == m0[end + n..]
  {
    assert m2[..end] == m2[..at + HEADER] + m2[at + HEADER..end];
    assert m0[..end] == m0[..at + HEADER] + m0[at + HEADER..end];
    assert m2[end..end + n] == m2[end..][..n];
    assert m1[end..end + n] == m1[end..][..n] == long[|long| - n..];
    assert m2[end + n..] == m2[end..][n..];
    assert m1[end + n..] == m1[end..][n..];
  }

  lemma SameFront(m0: seq<byte>, m2: seq<byte>, at: nat)
    requires at + HEADER <= |m0| == |m2|
    requires Size(m0, at) == Size(m2, at) && m0[at + ARGC] == m2[at + ARGC] && m0[at + ENVC] == m2[at + ENVC]
    requires forall i :: 0 <= i < at || at + ENVC < i < at + HEADER ==> m2[i] == m0[i]
    ensures m2[..at + HEADER] == m0[..at + HEADER]
  {
  }

  /** Two edits that undo each other: add a string and delete it again. */
  lemma AddThenDelete(list: seq<Text>, t: Text)
    requires t !in list
    ensures Edit(Edit(list, None, Some(t)).value, Some(t), None) == Some(list)
  {
    var longer := list + [t];
    FirstMatchIs(longer, t, |list|);
    assert longer[..|list|] + [] + longer[|list| + 1..] == list;
  }

  /** The first match in two lists one after the other, when the first has none. */
  lemma {:induction false} MatchBeyond(args: seq<Text>, envs: seq<Text>, t: Text)
    requires t !in args
    ensures FirstMatch(args + envs, t) == |args| + FirstMatch(envs, t)
    decreases |args|
  {
    if args == [] {
      assert args + envs == envs;
    } else {
      assert (args + envs)[1..] == args[1..] + envs;
      MatchBeyond(args[1..], envs, t);
    }
  }

  /** One element of the second list put in place of another. */
  lemma ReplaceBeyond<T>(a: seq<T>, b: seq<T>, k: nat, x: T)
    requires k < |b|
    ensures (a + b)[..|a| + k] + [x] + (a + b)[|a| + k + 1..] == a + b[k := x]
  {
    SplitBeyond(a, b, k);
    assert b[k := x] == b[..k] + [x] + b[k + 1..];
  }

  /** One taken out, with the boundary moved down by one. */
  lemma DeleteBeyond<T>(a: seq<T>, b: seq<T>, k: nat)
    requires k < |b| && a != []
    ensures (a + b)[..|a| + k] + [] + (a + b)[|a| + k + 1..] == a[..|a| - 1] + ([a[|a| - 1]] + b[..k] + b[k + 1..])
  {
    SplitBeyond(a, b, k);
    assert a == a[..|a| - 1] + [a[|a| - 1]];
  }

  lemma RunOnResult(args: seq<Text>, envs: seq<Text>, old_: Option<Text>, new_: Option<Text>)
    requires RunsOn(args, envs, old_)
    ensures var k, n, all := FirstMatch(envs, old_.value), |args| - 1, args + envs;
            && k < |envs| && Applies(all, old_)
            && (new_.Some? ==> Result(all, old_, new_) == args + envs[k := new_.value])
            && (new_.None? ==> Result(all, old_, new_) == args[..n] + ([args[n]] + envs[..k] + envs[k + 1..]))
  {
    MatchBeyond(args, envs, old_.value);
    var k, all := FirstMatch(envs, old_.value), args + envs;
    assert k < |envs|;
    hide FirstMatch;
    hide RunsOn;
    hide Result;
    ResultOfMatch(all, |args| + k, old_, new_);
    if new_.Some? {
      ReplaceBeyond(args, envs, k, new_.value);
    } else {
      DeleteBeyond(args, envs, k);
    }
  }

  lemma ResultOfMatch(list: seq<Text>, k: nat, old_: Option<Text>, new_: Option<Text>)
    requires old_.Some? && k < |list| && FirstMatch(list, old_.value) == k
    ensures Applies(list, old_)
    ensures Result(list, old_, new_) == list[..k] + (if new_.Some? then [new_.value] else []) + list[k + 1..]
  {
    hide FirstMatch;
  }

  /** What the search that runs on does to the lists: deleting, it takes the variable away and
      makes the last argument the first variable; replacing, it replaces the variable. */
  lemma RunOnEditsTheEnvironment(m0: seq<byte>, m1: seq<byte>, at: nat, old_: Option<Text>, new_: Option<Text>,
                                 args: seq<Text>, envs: seq<Text>, trailing: seq<byte>)
    requires Held(m0, at, args, envs, trailing) && RunsOn(args, envs, old_) && Applies(args + envs, old_)
    requires AdjustedTo(m0, m1, at, at + ARGC, old_, new_, [], args + envs, trailing)
    ensures var total, k, n := Size(m0, at) + Delta(old_, new_), FirstMatch(envs, old_.value), |args| - 1;
            && total >= HEADER && k < |envs|
            && (new_.Some? ==> Layout(m1, at, total, args, envs[k := new_.value], trailing))
            && (new_.None? ==> Layout(m1, at, total, args[..n], [args[n]] + envs[..k] + envs[k + 1..], trailing))
  {
    hide Pack;
    hide PackedAt;
    hide FirstMatch;
    hide Result;
    hide Delta;
    RunOnResult(args, envs, old_, new_);
    CountSteps(|args|, CountStep(old_, new_));
    assert [] + Result(args + envs, old_, new_) == Result(args + envs, old_, new_);
  }

  /** The odd call: editing null into null takes one off the count and moves no byte, so
      read back, every list shifts: the last argument becomes the first variable. */
  lemma NullIntoNullShiftsTheLists(mem: seq<byte>, at: nat, args: seq<Text>, envs: seq<Text>, trailing: seq<byte>)
    requires Entry(mem, at, args, envs, trailing) && args != []
    ensures var all := args + envs;
            var n, m := |args| - 1, |envs|;
            Entry(mem[at + ARGC := Wrapped(|args| - 1)], at,
                  all[..n], all[n..n + m], Pack(all[n + m..]) + trailing)
  {
    var all := args + envs;
    var n, m := |args| - 1, |envs|;
    var mem' := mem[at + ARGC := Wrapped(|args| - 1)];
    var end := at + Size(mem, at);
    assert mem'[at + HEADER..end] == mem[at + HEADER..end];
    assert all == (all[..n] + all[n..n + m]) + all[n + m..];
    PackAppend(all[..n] + all[n..n + m], all[n + m..]);
  }
}
