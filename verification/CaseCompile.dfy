/** Case forms: the cond chain, the hash dispatch and the jump table that stand for one. */
module CaseCompile {
  import opened Wrappers
  import opened Fixnum
  import opened Arith

  const CHAR_MAX: int := 0x10_FFFF

  type CharCode = n: int | 0 <= n <= CHAR_MAX

  /** Values that can be keys or tested. The id tells apart two bignums of one value, or two
      other objects of the same content. */
  datatype Obj = Int(n: int, id: nat) | Chr(code: CharCode) | Sym(name: nat) | Other(content: nat, id: nat)

  datatype Equality = Eq | Eql | Equal

  /** Whether eq, eql or equal holds of two values. */
  predicate Matches(e: Equality, a: Obj, b: Obj) {
    if a.Int? && b.Int? then a.n == b.n && (e != Eq || IsFixnum(a.n) || a.id == b.id)
    else if a.Other? && b.Other? && e == Equal then a.content == b.content
    else a == b
  }

  /** eq tells two bignums of one value apart and eql does not; both tell two objects of the
      same content apart and equal does not; fixnums, characters and symbols are what they are. */
  lemma {:induction false} EqualityExamples(e: Equality, n: int, m: int, i: nat, j: nat, x: nat, y: nat)
    requires i != j
    ensures Matches(e, Int(n, i), Int(m, j)) <==> n == m && (e != Eq || NUM_MIN <= n <= NUM_MAX)
    ensures Matches(e, Int(n, i), Int(n, i)) && Matches(e, Other(x, i), Other(x, i))
    ensures Matches(e, Other(x, i), Other(y, j)) <==> x == y && e == Equal
    ensures Matches(e, Sym(x), Sym(y)) <==> x == y
    ensures !Matches(e, Int(n, i), Sym(x)) && !Matches(e, Sym(x), Other(x, i)) && !Matches(e, Int(n, i), Other(x, i))
  {
  }

  type Form = int
  type Body = seq<Form>

  datatype Clause = Clause(keys: seq<Obj>, forms: Body)

  /** A clause as written: the symbol t on its own, or keys. */
  datatype Written = T(forms: Body) | Keys(keys: seq<Obj>, forms: Body)

  datatype CaseForm = CaseForm(e: Equality, clauses: seq<Clause>, fallback: Option<Body>)

  /** What running the code comes to: the forms of a body are run (none at all give nil),
      the test value t itself is returned, or the jump is out of the table. */
  datatype Outcome = Runs(body: Body) | ReturnsTrue | JumpsOut

  datatype Code =
    | CondCode
    | HashCode(hash: map<Obj, nat>)
    | DenseCode(chars: bool, min: int, max: int, table: seq<Option<Body>>)

  /** An expansion can fail: t is used as a key, or the table loop does not end before it
      runs out of memory or of characters. */
  datatype Expansion = Expands(code: Code) | TAsKey | LoopFails

  // ---- Running the three forms ---------------------------------------------------------

  predicate HasKey(e: Equality, keys: seq<Obj>, v: Obj) {
    exists j :: 0 <= j < |keys| && Matches(e, keys[j], v)
  }

  /** The cond chain: the first clause with a matching key, or else the fallback, whose lone
      (t) returns t. */
  function RunCond(c: CaseForm, v: Obj): Outcome {
    Chain(c.e, c.clauses, c.fallback, v)
  }

  function Chain(e: Equality, clauses: seq<Clause>, fallback: Option<Body>, v: Obj): Outcome {
    if clauses == [] then
      if fallback.None? then Runs([]) else if fallback.value == [] then ReturnsTrue else Runs(fallback.value)
    else if HasKey(e, clauses[0].keys, v) then Runs(clauses[0].forms)
    else Chain(e, clauses[1..], fallback, v)
  }

  /** The progn that both other forms end in. */
  function RunFallback(c: CaseForm): Outcome {
    Runs(if c.fallback.None? then [] else c.fallback.value)
  }

  /** The value that an eql-based or equal-based hash files v under. */
  function Canon(e: Equality, v: Obj): Obj {
    if v.Int? then Int(v.n, 0) else if v.Other? && e == Equal then Other(v.content, 0) else v
  }

  function Number(k: Obj): int {
    if k.Int? then k.n else if k.Chr? then k.code else 0
  }

  /** The difference of two integers as the arithmetic library computes it. */
  function Difference(a: int, b: int): int {
    Minus(Normal(a), Normal(b)).n
  }

  predicate InRange(chars: bool, min: int, max: int, v: Obj) {
    (if chars then v.Chr? else v.Int?) && min <= Number(v) <= max
  }

  /** The jump by index. */
  function RunIndex(c: CaseForm, table: seq<Option<Body>>, i: int): Outcome {
    if i < 0 || i >= |table| then JumpsOut else if table[i].Some? then Runs(table[i].value) else RunFallback(c)
  }

  function Run(c: CaseForm, code: Code, v: Obj): Outcome {
    match code
    case CondCode => RunCond(c, v)
    case HashCode(hash) =>
      var k := Canon(c.e, v);
      if k in hash && hash[k] < |c.clauses| then Runs(c.clauses[hash[k]].forms) else RunFallback(c)
    case DenseCode(chars, min, max, table) =>
      if InRange(chars, min, max, v) then
        RunIndex(c, table, Difference(Number(v), min))
      else RunFallback(c)
  }

  // ---- The hash ------------------------------------------------------------------------

  function PutKeys(m: map<Obj, nat>, e: Equality, keys: seq<Obj>, index: nat): (r: map<Obj, nat>)
    decreases |keys|
  {
    if keys == [] then m else
      var j := |keys| - 1;
      PutKeys(m, e, keys[..j], index)[Canon(e, keys[j]) := index]
  }

  /** The hash of all the keys, each clause filed under its number; later ones replace. */
  function HashOf(e: Equality, clauses: seq<Clause>): (r: map<Obj, nat>)
    decreases |clauses|
  {
    if clauses == [] then map[] else
      var i := |clauses| - 1;
      PutKeys(HashOf(e, clauses[..i]), e, clauses[i].keys, i)
  }

  predicate Filed(e: Equality, keys: seq<Obj>, k: Obj) {
    exists j :: 0 <= j < |keys| && Canon(e, keys[j]) == k
  }

  lemma {:induction false} PutKeysAt(m: map<Obj, nat>, e: Equality, keys: seq<Obj>, index: nat, k: Obj)
    ensures var r := PutKeys(m, e, keys, index);
            if Filed(e, keys, k) then k in r && r[k] == index else (k in r <==> k in m) && (k in m ==> r[k] == m[k])
    decreases |keys|
  {
    if keys != [] {
      var j := |keys| - 1;
      PutKeysAt(m, e, keys[..j], index, k);
      assert forall h | 0 <= h < j :: keys[..j][h] == keys[h];
    }
  }

  /** Clause i is the last that files k. */
  predicate LastFiled(e: Equality, clauses: seq<Clause>, k: Obj, i: nat) {
    && i < |clauses| && Filed(e, clauses[i].keys, k)
    && forall h | i < h < |clauses| :: !Filed(e, clauses[h].keys, k)
  }

  /** A key is in the hash exactly if some clause files it, under the last that does. */
  lemma {:induction false} HashOfAt(e: Equality, clauses: seq<Clause>, k: Obj)
    ensures k in HashOf(e, clauses) ==> LastFiled(e, clauses, k, HashOf(e, clauses)[k])
    ensures k !in HashOf(e, clauses) ==> forall h | 0 <= h < |clauses| :: !Filed(e, clauses[h].keys, k)
    decreases |clauses|
  {
    if clauses != [] {
      var i := |clauses| - 1;
      HashOfAt(e, clauses[..i], k);
      PutKeysAt(HashOf(e, clauses[..i]), e, clauses[i].keys, i, k);
    }
  }

  // ---- Choosing the form -----------------------------------------------------------------

  predicate EqKey(k: Obj) {
    (k.Int? && IsFixnum(k.n)) || k.Chr? || k.Sym?
  }

  predicate EqKeys(keys: seq<Obj>) {
    forall j | 0 <= j < |keys| :: EqKey(keys[j])
  }

  predicate IntKeys(keys: seq<Obj>) {
    forall j | 0 <= j < |keys| :: keys[j].Int?
  }

  predicate CharKeys(keys: seq<Obj>) {
    forall j | 0 <= j < |keys| :: keys[j].Chr?
  }

  /** What all the keys of all the clauses are. */
  predicate AllEqKeys(clauses: seq<Clause>) {
    forall i | 0 <= i < |clauses| :: EqKeys(clauses[i].keys)
  }

  predicate AllInts(clauses: seq<Clause>) {
    forall i | 0 <= i < |clauses| :: IntKeys(clauses[i].keys)
  }

  predicate AllChars(clauses: seq<Clause>) {
    forall i | 0 <= i < |clauses| :: CharKeys(clauses[i].keys)
  }

  /** A fixnum or character of the table. */
  function KeyAt(chars: bool, i: int): Obj
    requires chars ==> 0 <= i <= CHAR_MAX
  {
    if chars then Chr(i) else Int(i, 0)
  }

  function Entry(clauses: seq<Clause>, hash: map<Obj, nat>, k: Obj): Option<Body> {
    if k in hash && hash[k] < |clauses| then Some(clauses[hash[k]].forms) else None
  }

  function Limit(chars: bool): int {
    if chars then CHAR_MAX else NUM_MAX
  }

  /** Where bignums live: those that the loop counts through, the first of which is the least
      key, and the greatest key. */
  datatype Heap = Heap(counted: int -> nat, last: nat)

  /** Addresses are within what 64-bit systems give a process. */
  ghost predicate Addresses(heap: Heap) {
    heap.last < 0x0100_0000_0000_0000 && forall n :: heap.counted(n) < 0x0100_0000_0000_0000
  }

  /** A fixnum or character as the loop compares it: the tagged word, without sign. */
  function Tagged(chars: bool, n: int): int {
    var w := 4 * n + if chars then 2 else 1;
    if w < 0 then w + 0x1_0000_0000_0000_0000 else w
  }

  /** A bignum is compared by its address. */
  function Word(chars: bool, heap: Heap, n: int): int {
    if chars || IsFixnum(n) then Tagged(chars, n) else heap.counted(n)
  }

  function Top(chars: bool, heap: Heap, max: int): int {
    if chars || IsFixnum(max) then Tagged(chars, max) else heap.last
  }

  predicate TableOf(clauses: seq<Clause>, hash: map<Obj, nat>, chars: bool, min: int, table: seq<Option<Body>>)
    requires chars ==> 0 <= min && min + |table| <= CHAR_MAX + 1
  {
    forall i | 0 <= i < |table| :: table[i] == Entry(clauses, hash, KeyAt(chars, min + i))
  }

  /** The first len numbers from min on compare as no greater than max, and the next as greater. */
  ghost predicate StopsAfter(chars: bool, heap: Heap, min: int, max: int, len: nat) {
    && (forall n | min <= n < min + len :: Word(chars, heap, n) <= Top(chars, heap, max))
    && Word(chars, heap, min + len) > Top(chars, heap, max)
  }

  /** The loop can get as far as len: memory has room for so many entries, and there are so
      many characters. */
  predicate Reaches(chars: bool, room: nat, min: int, len: nat) {
    len <= room && (chars ==> min + len <= CHAR_MAX)
  }

  ghost predicate Ends(chars: bool, heap: Heap, room: nat, min: int, max: int) {
    exists len: nat :: EndsAfter(chars, heap, room, min, max, len)
  }

  ghost predicate EndsAfter(chars: bool, heap: Heap, room: nat, min: int, max: int, len: nat) {
    Reaches(chars, room, min, len) && StopsAfter(chars, heap, min, max, len)
  }

  /** The table loop. Error when it does not end before memory or the characters do. */
  method MakeTable(clauses: seq<Clause>, hash: map<Obj, nat>, chars: bool, min: int, max: int, heap: Heap, room: nat)
    returns (r: Result<seq<Option<Body>>>)
    requires min <= max && (chars ==> 0 <= min && max <= CHAR_MAX)
    ensures r.Error? <==> !Ends(chars, heap, room, min, max)
    ensures r.Ok? ==> EndsAfter(chars, heap, room, min, max, |r.value|) && TableOf(clauses, hash, chars, min, r.value)
  {
    var i, table := min, [];
    while Word(chars, heap, i) <= Top(chars, heap, max)
      invariant |table| == i - min <= room && (chars ==> i <= CHAR_MAX)
      invariant TableOf(clauses, hash, chars, min, table)
      invariant forall n | min <= n < i :: Word(chars, heap, n) <= Top(chars, heap, max)
      decreases room - |table|
    {
      if |table| == room { return Error; }
      table := table + [Entry(clauses, hash, KeyAt(chars, i))];
      if chars && i == CHAR_MAX { return Error; }
      i := i + 1;
    }
    assert EndsAfter(chars, heap, room, min, max, |table|);
    r := Ok(table);
  }

  // ---- Where the loop ends -----------------------------------------------------------------

  /** The ranges of fixnums or characters that the comparison gets right. */
  predicate TableRange(chars: bool, min: int, max: int) {
    (0 <= min && max < Limit(chars)) || max < -1
  }

  /** Between fixnums, the loop ends after the last number in these ranges, and at once if
      the ends differ in sign. With the greatest fixnum or -1 at the end it does not stop. */
  lemma {:induction false} FixnumStop(chars: bool, heap: Heap, min: int, max: int, len: nat)
    requires Addresses(heap) && NUM_MIN <= min <= max <= Limit(chars) && (chars ==> 0 <= min && min + len <= CHAR_MAX)
    ensures StopsAfter(chars, heap, min, max, len) <==>
            (min < 0 <= max && len == 0) || (TableRange(chars, min, max) && len == max - min + 1)
  {
    if min < 0 <= max {
      assert Word(chars, heap, min + 0) > Top(chars, heap, max);
    } else {
      WordsRise(chars, heap, min, max);
      if TableRange(chars, min, max) { assert Word(chars, heap, max + 1) > Top(chars, heap, max); }
      else { NeverStops(chars, heap, min, max, min + len); }
    }
  }

  /** Within one sign, words rise with the numbers. */
  lemma {:induction false} WordsRise(chars: bool, heap: Heap, min: int, max: int)
    requires NUM_MIN <= min <= max <= Limit(chars) && (chars ==> 0 <= min) && !(min < 0 <= max)
    ensures forall n | min <= n <= max :: Word(chars, heap, n) <= Top(chars, heap, max)
  {
  }

  /** Nothing compares as greater than the greatest fixnum, as -1 or as the last character. */
  lemma {:induction false} NeverStops(chars: bool, heap: Heap, min: int, max: int, n: int)
    requires Addresses(heap) && NUM_MIN <= min <= max <= Limit(chars) && (chars ==> 0 <= min && n <= CHAR_MAX)
    requires !(min < 0 <= max) && !TableRange(chars, min, max) && min <= n
    ensures Word(chars, heap, n) <= Top(chars, heap, max)
  {
  }

  /** From a fixnum to a bignum the loop ends before the fixnums do, and at once unless the
      first number's word is no greater than an address. */
  lemma {:induction false} BignumStop(heap: Heap, min: int, max: int, len: nat)
    requires Addresses(heap) && IsFixnum(min) && max > NUM_MAX && StopsAfter(false, heap, min, max, len)
    ensures min + len <= NUM_MAX && (len == 0 <==> min < 0 || 4 * min + 1 > heap.last)
  {
    var top := Top(false, heap, max);
    assert Word(false, heap, NUM_MAX) > top;
    if len > 0 { assert Word(false, heap, min) <= top; }
  }

  /** hash_min_max over the keys, in whatever order the hash has them; zeros for no keys. */
  method HashMinMax(hash: map<Obj, nat>) returns (min: int, max: int)
    ensures forall k | k in hash :: min <= Number(k) <= max
    ensures |hash| > 0 ==> exists k, h | k in hash && h in hash :: min == Number(k) && max == Number(h)
    ensures |hash| == 0 ==> min == 0 == max
  {
    min, max := 0, 0;
    var rest, first := hash.Keys, true;
    ghost var k0, k1 := Sym(0), Sym(0);
    while rest != {}
      invariant rest <= hash.Keys && (first ==> rest == hash.Keys)
      invariant first ==> min == 0 == max
      invariant !first ==> k0 in hash && k1 in hash && min == Number(k0) && max == Number(k1)
      invariant forall k | k in hash && k !in rest :: min <= Number(k) <= max
      decreases rest
    {
      var k :| k in rest;
      if first || Number(k) < min { min, k0 := Number(k), k; }
      if first || Number(k) > max { max, k1 := Number(k), k; }
      first, rest := false, rest - {k};
    }
  }

  ghost predicate Spans(hash: map<Obj, nat>, min: int, max: int) {
    && (forall k | k in hash :: min <= Number(k) <= max)
    && ((exists k, h | k in hash && h in hash :: min == Number(k) && max == Number(h))
        || (min == 0 == max && forall k :: k !in hash))
  }

  /** Keys that are all integers or all characters, and dense enough for a table. */
  predicate WantsTable(c: CaseForm, hash: map<Obj, nat>, min: int, max: int) {
    && (AllInts(c.clauses) || AllChars(c.clauses))
    && |hash| >= 6 && 4 * |hash| > 3 * Difference(max, min)
    && (c.e == Eq ==> IsFixnum(min) && IsFixnum(max))
  }

  predicate WantsHash(c: CaseForm, hash: map<Obj, nat>) {
    |hash| > 10 && (c.e == Eq ==> AllEqKeys(c.clauses))
  }

  /** Which expansion a case form gets. */
  ghost predicate Picked(c: CaseForm, min: int, max: int, heap: Heap, room: nat, r: Expansion) {
    var hash, chars := HashOf(c.e, c.clauses), !AllInts(c.clauses);
    if WantsTable(c, hash, min, max) then
      if r.Expands? then
        && r.code.DenseCode? && TableFits(c, hash, chars, min, max, r.code)
        && EndsAfter(chars, heap, room, min, max, |r.code.table|)
      else
        r.LoopFails? && !Ends(chars, heap, room, min, max)
    else if WantsHash(c, hash) then r == Expands(HashCode(hash))
    else r == Expands(CondCode)
  }

  /** The table has the right entries, as far as it goes. */
  predicate TableFits(c: CaseForm, hash: map<Obj, nat>, chars: bool, min: int, max: int, code: Code)
    requires code.DenseCode?
  {
    && code == DenseCode(chars, min, max, code.table)
    && (chars ==> 0 <= min && max <= CHAR_MAX && min + |code.table| <= CHAR_MAX)
    && TableOf(c.clauses, hash, chars, min, code.table)
  }

  /** The choice at the end of the expansion. */
  method Choose(c: CaseForm, hash: map<Obj, nat>, allEq: bool, allInts: bool, allChars: bool, heap: Heap, room: nat)
    returns (min: int, max: int, r: Expansion)
    requires hash == HashOf(c.e, c.clauses) && allEq == AllEqKeys(c.clauses)
    requires allInts == AllInts(c.clauses) && allChars == AllChars(c.clauses)
    ensures Spans(hash, min, max) && Picked(c, min, max, heap, room, r)
  {
    min, max := HashMinMax(hash);
    if allInts || allChars {
      var range := Difference(max, min);
      if |hash| >= 6 && 4 * |hash| > 3 * range && (c.e != Eq || (IsFixnum(min) && IsFixnum(max))) {
        KeysOfKind(c, min, max);
        var table := MakeTable(c.clauses, hash, !allInts, min, max, heap, room);
        r := if table.Ok? then Expands(DenseCode(!allInts, min, max, table.value)) else LoopFails;
        return;
      }
    }
    r := Expands(if |hash| > 10 && (c.e != Eq || allEq) then HashCode(hash) else CondCode);
  }

  /** What is in the hash comes from a clause. */
  lemma {:induction false} KeysOfKind(c: CaseForm, min: int, max: int)
    requires Spans(HashOf(c.e, c.clauses), min, max) && |HashOf(c.e, c.clauses)| > 0
    ensures min <= max
    ensures !AllInts(c.clauses) && AllChars(c.clauses) ==> 0 <= min && max <= CHAR_MAX
  {
    var hash := HashOf(c.e, c.clauses);
    var k, h :| k in hash && h in hash && min == Number(k) && max == Number(h);
    HashOfAt(c.e, c.clauses, k);
    HashOfAt(c.e, c.clauses, h);
  }

  /** The clauses before a final t clause. */
  function Parsed(e: Equality, written: seq<Written>): CaseForm {
    var n := |written|;
    if n > 0 && written[n - 1].T? then CaseForm(e, Plain(written[..n - 1]), Some(written[n - 1].forms))
    else CaseForm(e, Plain(written), None)
  }

  function Plain(written: seq<Written>): (r: seq<Clause>)
    ensures |r| == |written|
  {
    seq(|written|, i requires 0 <= i < |written| =>
      if written[i].Keys? then Clause(written[i].keys, written[i].forms) else Clause([], written[i].forms))
  }

  /** me_case. */
  method Expand(e: Equality, written: seq<Written>, heap: Heap, room: nat) returns (r: Expansion)
    ensures r.TAsKey? <==> exists i :: 0 <= i < |written| - 1 && written[i].T?
    ensures !r.TAsKey? ==>
              var c := Parsed(e, written);
              exists min, max :: Spans(HashOf(e, c.clauses), min, max) && Picked(c, min, max, heap, room, r)
  {
    var i, clauses, hash, allEq, allInts, allChars := Collect(e, written);
    if i < |written| - 1 { return TAsKey; }
    var fallback := if i < |written| then Some(written[i].forms) else None;
    if i == |written| { assert written[..i] == written; }
    var c := CaseForm(e, clauses, fallback);
    assert c == Parsed(e, written);
    var min, max;
    min, max, r := Choose(c, hash, allEq, allInts, allChars, heap, room);
    assert Spans(HashOf(e, c.clauses), min, max) && Picked(c, min, max, heap, room, r);
  }

  /** The pass over the clauses before the first t files the keys and finds what kind they
      are. */
  method Collect(e: Equality, written: seq<Written>)
    returns (i: nat, clauses: seq<Clause>, hash: map<Obj, nat>, allEq: bool, allInts: bool, allChars: bool)
    ensures i <= |written| && clauses == Plain(written[..i]) && (i < |written| ==> written[i].T?)
    ensures forall h | 0 <= h < i :: written[h].Keys?
    ensures hash == HashOf(e, clauses) && allEq == AllEqKeys(clauses)
    ensures allInts == AllInts(clauses) && allChars == AllChars(clauses)
  {
    i, clauses, hash, allEq, allInts, allChars := 0, [], map[], true, true, true;
    while i < |written| && written[i].Keys?
      invariant i <= |written| && clauses == Plain(written[..i])
      invariant forall h | 0 <= h < i :: written[h].Keys?
      invariant hash == HashOf(e, clauses) && allEq == AllEqKeys(clauses)
      invariant allInts == AllInts(clauses) && allChars == AllChars(clauses)
    {
      var clause := Clause(written[i].keys, written[i].forms);
      CollectStep(e, clauses, clause);
      PlainStep(written, i);
      var eq, ints, chars;
      hash, eq, ints, chars := FileKeys(hash, e, clause.keys, i);
      allEq, allInts, allChars := allEq && eq, allInts && ints, allChars && chars;
      clauses, i := clauses + [clause], i + 1;
    }
  }

  lemma {:induction false} PlainStep(written: seq<Written>, i: nat)
    requires i < |written| && written[i].Keys?
    ensures Plain(written[..i + 1]) == Plain(written[..i]) + [Clause(written[i].keys, written[i].forms)]
  {
  }

  lemma {:induction false} CollectStep(e: Equality, clauses: seq<Clause>, clause: Clause)
    ensures var s := clauses + [clause];
            && HashOf(e, s) == PutKeys(HashOf(e, clauses), e, clause.keys, |clauses|)
            && (AllEqKeys(s) <==> AllEqKeys(clauses) && EqKeys(clause.keys))
            && (AllInts(s) <==> AllInts(clauses) && IntKeys(clause.keys))
            && (AllChars(s) <==> AllChars(clauses) && CharKeys(clause.keys))
  {
    var s := clauses + [clause];
    assert s[..|clauses|] == clauses && s[|clauses|] == clause;
    assert forall i | 0 <= i < |clauses| :: s[i] == clauses[i];
  }

  lemma {:induction false} KeysStep(m: map<Obj, nat>, e: Equality, keys: seq<Obj>, index: nat, h: nat)
    requires h < |keys|
    ensures var s := keys[..h + 1];
            && PutKeys(m, e, s, index) == PutKeys(m, e, keys[..h], index)[Canon(e, keys[h]) := index]
            && (EqKeys(s) <==> EqKeys(keys[..h]) && EqKey(keys[h]))
            && (IntKeys(s) <==> IntKeys(keys[..h]) && keys[h].Int?)
            && (CharKeys(s) <==> CharKeys(keys[..h]) && keys[h].Chr?)
  {
    var s := keys[..h + 1];
    assert s[..h] == keys[..h] && s[h] == keys[h];
    assert forall j | 0 <= j < h :: s[j] == keys[..h][j];
  }

  /** One clause: file its keys under its number. */
  method FileKeys(hash: map<Obj, nat>, e: Equality, keys: seq<Obj>, index: nat)
    returns (r: map<Obj, nat>, eq: bool, ints: bool, chars: bool)
    ensures r == PutKeys(hash, e, keys, index)
    ensures eq == EqKeys(keys) && ints == IntKeys(keys) && chars == CharKeys(keys)
  {
    r, eq, ints, chars := hash, true, true, true;
    for h := 0 to |keys|
      invariant r == PutKeys(hash, e, keys[..h], index)
      invariant eq == EqKeys(keys[..h]) && ints == IntKeys(keys[..h]) && chars == CharKeys(keys[..h])
    {
      KeysStep(hash, e, keys, index, h);
      r := r[Canon(e, keys[h]) := index];
      eq, ints, chars := eq && EqKey(keys[h]), ints && keys[h].Int?, chars && keys[h].Chr?;
    }
    assert keys[..|keys|] == keys;
  }

  // ---- What the code means -----------------------------------------------------------------

  /** The number of the first clause with a key that matches; the number of clauses if none. */
  function FirstMatch(e: Equality, clauses: seq<Clause>, v: Obj): (i: nat)
    ensures i <= |clauses|
    ensures i < |clauses| ==> HasKey(e, clauses[i].keys, v)
    ensures forall h | 0 <= h < i :: !HasKey(e, clauses[h].keys, v)
  {
    if clauses == [] || HasKey(e, clauses[0].keys, v) then 0 else 1 + FirstMatch(e, clauses[1..], v)
  }

  predicate NoMatch(e: Equality, clauses: seq<Clause>, v: Obj) {
    forall h | 0 <= h < |clauses| :: !HasKey(e, clauses[h].keys, v)
  }

  predicate LastMatch(e: Equality, clauses: seq<Clause>, v: Obj, i: nat) {
    && i < |clauses| && HasKey(e, clauses[i].keys, v)
    && forall h | i < h < |clauses| :: !HasKey(e, clauses[h].keys, v)
  }

  lemma {:induction false} ChainIs(e: Equality, clauses: seq<Clause>, fallback: Option<Body>, v: Obj)
    ensures var i := FirstMatch(e, clauses, v);
            Chain(e, clauses, fallback, v) ==
            if i < |clauses| then Runs(clauses[i].forms)
            else if fallback.None? then Runs([]) else if fallback.value == [] then ReturnsTrue else Runs(fallback.value)
  {
    if clauses != [] && !HasKey(e, clauses[0].keys, v) { ChainIs(e, clauses[1..], fallback, v); }
  }

  /** A hash finds what eql or equal would find; for eq only with keys that eql compares alike. */
  lemma {:induction false} CanonMatches(e: Equality, k: Obj, v: Obj)
    requires e == Eq ==> EqKey(k)
    ensures Matches(e, k, v) <==> Canon(e, k) == Canon(e, v)
  {
  }

  lemma {:induction false} FiledIsKeyed(e: Equality, keys: seq<Obj>, v: Obj)
    requires e == Eq ==> EqKeys(keys)
    ensures Filed(e, keys, Canon(e, v)) <==> HasKey(e, keys, v)
  {
    forall j | 0 <= j < |keys| ensures Matches(e, keys[j], v) <==> Canon(e, keys[j]) == Canon(e, v) {
      CanonMatches(e, keys[j], v);
    }
  }

  /** Looking v up in the hash finds the last clause with a key that matches. */
  lemma {:induction false} LookupIs(c: CaseForm, v: Obj)
    requires c.e == Eq ==> AllEqKeys(c.clauses)
    ensures var hash, k := HashOf(c.e, c.clauses), Canon(c.e, v);
            if k in hash then LastMatch(c.e, c.clauses, v, hash[k]) else NoMatch(c.e, c.clauses, v)
  {
    HashOfAt(c.e, c.clauses, Canon(c.e, v));
    forall i | 0 <= i < |c.clauses|
      ensures Filed(c.e, c.clauses[i].keys, Canon(c.e, v)) <==> HasKey(c.e, c.clauses[i].keys, v)
    {
      FiledIsKeyed(c.e, c.clauses[i].keys, v);
    }
  }

  /** What dispatching on v comes to. */
  ghost predicate Dispatches(c: CaseForm, v: Obj, r: Outcome) {
    && (forall i: nat | LastMatch(c.e, c.clauses, v, i) :: r == Runs(c.clauses[i].forms))
    && (NoMatch(c.e, c.clauses, v) ==> r == RunFallback(c))
  }

  lemma {:induction false} HashDispatches(c: CaseForm, v: Obj)
    requires c.e == Eq ==> AllEqKeys(c.clauses)
    ensures Dispatches(c, v, Run(c, HashCode(HashOf(c.e, c.clauses)), v))
  {
    LookupIs(c, v);
  }

  /** Keys within a range of fixnums are eq keys. */
  lemma {:induction false} TableKeys(c: CaseForm, min: int, max: int)
    requires Spans(HashOf(c.e, c.clauses), min, max) && IsFixnum(min) && IsFixnum(max)
    requires AllInts(c.clauses) || AllChars(c.clauses)
    ensures AllEqKeys(c.clauses)
  {
    forall i, j | 0 <= i < |c.clauses| && 0 <= j < |c.clauses[i].keys| ensures EqKey(c.clauses[i].keys[j]) {
      var k := Canon(c.e, c.clauses[i].keys[j]);
      assert Filed(c.e, c.clauses[i].keys, k);
      HashOfAt(c.e, c.clauses, k);
      assert k in HashOf(c.e, c.clauses);
    }
  }

  /** The subtraction at run time loses the sign of a negative fixnum from which a bignum is
      taken, so that v is taken for its negative. */
  function Taken(code: Code, v: Obj): Obj {
    if code.DenseCode? && InRange(code.chars, code.min, code.max, v) && v.Int? && IsFixnum(v.n) && v.n < 0
       && !IsFixnum(code.min)
    then Int(-v.n, 0) else v
  }

  /** The value is in range, but beyond the end of the table. */
  predicate Jumps(code: Code, v: Obj) {
    && code.DenseCode? && InRange(code.chars, code.min, code.max, v)
    && Number(Taken(code, v)) - code.min >= |code.table|
  }

  lemma {:induction false} IndexIs(code: Code, v: Obj)
    requires code.DenseCode? && InRange(code.chars, code.min, code.max, v) && (code.chars ==> code.min >= 0)
    ensures Difference(Number(v), code.min) == Number(Taken(code, v)) - code.min >= 0
  {
    MinusExact(Normal(Number(v)), Normal(code.min));
  }

  /** A table jumps out for what is beyond its end, and otherwise dispatches on the value that
      the subtraction takes v for. */
  lemma {:induction false} TableDispatches(c: CaseForm, min: int, max: int, code: Code, v: Obj)
    requires Spans(HashOf(c.e, c.clauses), min, max) && (c.e == Eq ==> IsFixnum(min) && IsFixnum(max))
    requires AllInts(c.clauses) || AllChars(c.clauses)
    requires code.DenseCode? && TableFits(c, HashOf(c.e, c.clauses), !AllInts(c.clauses), min, max, code)
    ensures if Jumps(code, v) then Run(c, code, v) == JumpsOut else Dispatches(c, Taken(code, v), Run(c, code, v))
  {
    if c.e == Eq { TableKeys(c, min, max); }
    LookupIs(c, Taken(code, v));
    TableLooksUp(c, min, max, code, v);
  }

  /** What the code runs is what the hash has for the value taken. */
  function LookedUp(c: CaseForm, hash: map<Obj, nat>, w: Obj): (r: Outcome)
    ensures r.Runs?
  {
    var k := Canon(c.e, w);
    if k in hash && hash[k] < |c.clauses| then Runs(c.clauses[hash[k]].forms) else RunFallback(c)
  }

  /** A value is in the table exactly if the hash has it. */
  lemma {:induction false} TableLooksUp(c: CaseForm, min: int, max: int, code: Code, v: Obj)
    requires Spans(HashOf(c.e, c.clauses), min, max) && (AllInts(c.clauses) || AllChars(c.clauses))
    requires code.DenseCode? && TableFits(c, HashOf(c.e, c.clauses), !AllInts(c.clauses), min, max, code)
    ensures Run(c, code, v) ==
            if Jumps(code, v) then JumpsOut else LookedUp(c, HashOf(c.e, c.clauses), Taken(code, v))
  {
    if InRange(code.chars, min, max, v) {
      InTable(c, HashOf(c.e, c.clauses), min, max, code, v);
    } else {
      FiledInRange(c, min, max, v);
      OutOfTable(c, HashOf(c.e, c.clauses), code, v);
    }
  }

  lemma {:induction false} OutOfTable(c: CaseForm, hash: map<Obj, nat>, code: Code, v: Obj)
    requires code.DenseCode? && !InRange(code.chars, code.min, code.max, v) && Canon(c.e, v) !in hash
    ensures !Jumps(code, v) && Taken(code, v) == v && Run(c, code, v) == LookedUp(c, hash, v)
  {
  }

  lemma {:induction false} InTable(c: CaseForm, hash: map<Obj, nat>, min: int, max: int, code: Code, v: Obj)
    requires code.DenseCode? && TableFits(c, hash, code.chars, min, max, code) && InRange(code.chars, min, max, v)
    ensures Run(c, code, v) == if Jumps(code, v) then JumpsOut else LookedUp(c, hash, Taken(code, v))
  {
    RunAt(c, code, v);
    if !Jumps(code, v) { EntryIs(c, hash, code, Taken(code, v)); }
  }

  lemma {:induction false} RunAt(c: CaseForm, code: Code, v: Obj)
    requires code.DenseCode? && InRange(code.chars, code.min, code.max, v) && (code.chars ==> code.min >= 0)
    ensures var w := Taken(code, v);
            && (if code.chars then w.Chr? else w.Int?) && Number(w) >= code.min
            && Run(c, code, v) == RunIndex(c, code.table, Number(w) - code.min)
  {
    IndexIs(code, v);
  }

  lemma {:induction false} EntryIs(c: CaseForm, hash: map<Obj, nat>, code: Code, w: Obj)
    requires code.DenseCode? && TableFits(c, hash, code.chars, code.min, code.max, code)
    requires (if code.chars then w.Chr? else w.Int?) && 0 <= Number(w) - code.min < |code.table|
    ensures LookedUp(c, hash, w) == RunIndex(c, code.table, Number(w) - code.min)
  {
    assert Canon(c.e, w) == KeyAt(code.chars, code.min + (Number(w) - code.min));
  }

  lemma {:induction false} FiledInRange(c: CaseForm, min: int, max: int, v: Obj)
    requires Spans(HashOf(c.e, c.clauses), min, max) && (AllInts(c.clauses) || AllChars(c.clauses))
    ensures Canon(c.e, v) in HashOf(c.e, c.clauses) ==> InRange(!AllInts(c.clauses), min, max, v)
  {
    var k := Canon(c.e, v);
    if k in HashOf(c.e, c.clauses) { HitInTable(c, k); }
  }

  lemma {:induction false} HitInTable(c: CaseForm, k: Obj)
    requires k in HashOf(c.e, c.clauses) && (AllInts(c.clauses) || AllChars(c.clauses))
    ensures if AllInts(c.clauses) then k.Int? else k.Chr?
  {
    HashOfAt(c.e, c.clauses, k);
  }

  /** The dispatch and the cond chain come to the same exactly where the first and the last
      clause that match have the same forms and, where none does, the fallback is not a
      lone (t). */
  lemma {:induction false} AgreesExactly(c: CaseForm, v: Obj, r: Outcome)
    requires Dispatches(c, v, r)
    ensures NoMatch(c.e, c.clauses, v) ==> (r == RunCond(c, v) <==> c.fallback != Some([]))
    ensures forall i: nat, j: nat | i == FirstMatch(c.e, c.clauses, v) && LastMatch(c.e, c.clauses, v, j) ::
              r == RunCond(c, v) <==> c.clauses[i].forms == c.clauses[j].forms
  {
    ChainIs(c.e, c.clauses, c.fallback, v);
  }

  /** No key of one clause matches a key of another. */
  ghost predicate DistinctKeys(c: CaseForm) {
    forall i, j | 0 <= i < j < |c.clauses| ::
      forall a, b | a in c.clauses[i].keys && b in c.clauses[j].keys :: !Matches(c.e, a, b)
  }

  /** Whatever form is chosen, it does what the cond chain does exactly for the values that do
      not jump out of a table and that the chain treats like what they are taken for. */
  lemma {:induction false} CaseMeaning(c: CaseForm, min: int, max: int, heap: Heap, room: nat, code: Code, v: Obj)
    requires Spans(HashOf(c.e, c.clauses), min, max) && Picked(c, min, max, heap, room, Expands(code))
    requires DistinctKeys(c) && c.fallback != Some([])
    ensures Run(c, code, v) == RunCond(c, v) <==> !Jumps(code, v) && RunCond(c, Taken(code, v)) == RunCond(c, v)
  {
    var w := Taken(code, v);
    ChainIs(c.e, c.clauses, c.fallback, v);
    if !code.CondCode? {
      if code.HashCode? { HashDispatches(c, v); } else { TableDispatches(c, min, max, code, v); }
      if !Jumps(code, v) {
        AgreesExactly(c, w, Run(c, code, v));
        if !NoMatch(c.e, c.clauses, w) { LastIsFirst(c, w); }
      }
    }
  }

  lemma {:induction false} LastIsFirst(c: CaseForm, v: Obj)
    requires DistinctKeys(c) && !NoMatch(c.e, c.clauses, v)
    ensures LastMatch(c.e, c.clauses, v, FirstMatch(c.e, c.clauses, v))
  {
    var i := FirstMatch(c.e, c.clauses, v);
    forall h | i < h < |c.clauses| ensures !HasKey(c.e, c.clauses[h].keys, v) {
      if HasKey(c.e, c.clauses[h].keys, v) {
        var x :| 0 <= x < |c.clauses[i].keys| && Matches(c.e, c.clauses[i].keys[x], v);
        var y :| 0 <= y < |c.clauses[h].keys| && Matches(c.e, c.clauses[h].keys[y], v);
        assert c.clauses[i].keys[x] in c.clauses[i].keys && c.clauses[h].keys[y] in c.clauses[h].keys;
        assert Matches(c.e, c.clauses[i].keys[x], c.clauses[h].keys[y]);
        assert false;
      }
    }
  }

  // ---- In terms of the clauses as written ---------------------------------------------------

  predicate KeyMatches(e: Equality, w: Written, v: Obj) {
    w.Keys? && exists j :: 0 <= j < |w.keys| && Matches(e, w.keys[j], v)
  }

  predicate OnlyLastT(written: seq<Written>) {
    forall i | 0 <= i < |written| - 1 :: written[i].Keys?
  }

  predicate EndsInT(written: seq<Written>) {
    written != [] && written[|written| - 1].T?
  }

  lemma {:induction false} ParsedMatches(e: Equality, written: seq<Written>, v: Obj)
    requires OnlyLastT(written)
    ensures var c := Parsed(e, written);
            && c.e == e && |c.clauses| == (if EndsInT(written) then |written| - 1 else |written|)
            && (forall i | 0 <= i < |c.clauses| ::
                  c.clauses[i].forms == written[i].forms
                  && (HasKey(e, c.clauses[i].keys, v) <==> KeyMatches(e, written[i], v)))
            && c.fallback == if EndsInT(written) then Some(written[|written| - 1].forms) else None
  {
  }

  predicate FirstKey(e: Equality, written: seq<Written>, v: Obj, i: nat) {
    && i < |written| && KeyMatches(e, written[i], v)
    && forall h | 0 <= h < i :: !KeyMatches(e, written[h], v)
  }

  /** The cond chain runs the forms of the first written clause with a matching key. With none,
      it runs those of a final t clause, or returns t if that has none, and otherwise nothing. */
  lemma {:induction false} WrittenChain(e: Equality, written: seq<Written>, v: Obj, i: nat)
    requires OnlyLastT(written)
    ensures var r := RunCond(Parsed(e, written), v);
            && (FirstKey(e, written, v, i) ==> r == Runs(written[i].forms))
            && ((forall h | 0 <= h < |written| :: !KeyMatches(e, written[h], v)) ==>
                  r == if !EndsInT(written) then Runs([])
                       else if written[|written| - 1].forms == [] then ReturnsTrue
                       else Runs(written[|written| - 1].forms))
  {
    var c := Parsed(e, written);
    ParsedMatches(e, written, v);
    ChainIs(e, c.clauses, c.fallback, v);
  }

  /** What a dispatch runs: the forms of the last written clause with a matching key. With
      none, it runs those of a final t clause, and otherwise nothing. */
  lemma {:induction false} WrittenDispatch(e: Equality, written: seq<Written>, w: Obj, i: nat, r: Outcome)
    requires OnlyLastT(written) && Dispatches(Parsed(e, written), w, r)
    ensures LastKey(e, written, w, i) ==> r == Runs(written[i].forms)
    ensures (forall h | 0 <= h < |written| :: !KeyMatches(e, written[h], w)) ==>
              r == Runs(if EndsInT(written) then written[|written| - 1].forms else [])
  {
    ParsedMatches(e, written, w);
    if LastKey(e, written, w, i) { LastWritten(e, written, w, i); }
  }

  predicate LastKey(e: Equality, written: seq<Written>, w: Obj, i: nat) {
    && i < |written| && KeyMatches(e, written[i], w)
    && forall h | i < h < |written| :: !KeyMatches(e, written[h], w)
  }

  lemma {:induction false} LastWritten(e: Equality, written: seq<Written>, w: Obj, i: nat)
    requires OnlyLastT(written) && LastKey(e, written, w, i)
    ensures LastMatch(e, Parsed(e, written).clauses, w, i)
  {
    ParsedMatches(e, written, w);
  }

  /** Every expansion dispatches so on the value it takes v for, except that a table can jump
      out, or else is the cond chain. */
  lemma {:induction false} ExpansionDispatches(c: CaseForm, min: int, max: int, heap: Heap, room: nat, code: Code,
                                               v: Obj)
    requires Spans(HashOf(c.e, c.clauses), min, max) && Picked(c, min, max, heap, room, Expands(code))
    ensures code.CondCode? ==> Run(c, code, v) == RunCond(c, v)
    ensures !code.CondCode? ==>
              if Jumps(code, v) then Run(c, code, v) == JumpsOut else Dispatches(c, Taken(code, v), Run(c, code, v))
  {
    if code.HashCode? { HashDispatches(c, v); }
    if code.DenseCode? { TableDispatches(c, min, max, code, v); }
  }

  /** How many distinct keys each form takes: a table six, all integers or all characters, and
      a hash eleven, which for eq are fixnums, characters and symbols. */
  lemma {:induction false} FormsByKeys(c: CaseForm, min: int, max: int, heap: Heap, room: nat, r: Expansion)
    requires Picked(c, min, max, heap, room, r)
    ensures var n := |HashOf(c.e, c.clauses)|;
            && (n <= 5 ==> r == Expands(CondCode))
            && (n <= 10 && !AllInts(c.clauses) && !AllChars(c.clauses) ==> r == Expands(CondCode))
            && (n > 10 && !AllInts(c.clauses) && !AllChars(c.clauses) && c.e != Eq ==>
                  r == Expands(HashCode(HashOf(c.e, c.clauses))))
            && (n > 5 && 3 * (max - min) < 4 * n && IsFixnum(min) && IsFixnum(max)
                && (AllInts(c.clauses) || AllChars(c.clauses)) ==>
                  r.LoopFails? || (r.Expands? && r.code.DenseCode?))
            && (n <= 10 && 3 * (max - min) >= 4 * n && IsFixnum(min) && IsFixnum(max) ==> r == Expands(CondCode))
  {
  }

  /** Keys that compare with eq. */
  lemma {:induction false} EqKeysAre(clauses: seq<Clause>)
    ensures AllEqKeys(clauses) <==>
            forall i, j | 0 <= i < |clauses| && 0 <= j < |clauses[i].keys| ::
              var k := clauses[i].keys[j]; k.Chr? || k.Sym? || (k.Int? && NUM_MIN <= k.n <= NUM_MAX)
    ensures AllInts(clauses) <==>
            forall i, j | 0 <= i < |clauses| && 0 <= j < |clauses[i].keys| :: clauses[i].keys[j].Int?
    ensures AllChars(clauses) <==>
            forall i, j | 0 <= i < |clauses| && 0 <= j < |clauses[i].keys| :: clauses[i].keys[j].Chr?
  {
  }

  /** Between fixnums or characters, values jump out exactly if there are keys of both signs,
      when the table comes out empty, and then all the integers in range do; nothing is taken
      for anything else. The loop fails, given memory for the table, exactly if the last key
      is -1, the greatest fixnum or the last character. */
  lemma {:induction false} FixnumTable(c: CaseForm, min: int, max: int, heap: Heap, room: nat, r: Expansion, v: Obj)
    requires Addresses(heap) && Spans(HashOf(c.e, c.clauses), min, max) && Picked(c, min, max, heap, room, r)
    requires WantsTable(c, HashOf(c.e, c.clauses), min, max) && IsFixnum(min) && IsFixnum(max)
    ensures r.Expands? ==> r.code.DenseCode? && Taken(r.code, v) == v
    ensures r.Expands? ==> |r.code.table| == if min < 0 <= max then 0 else max - min + 1
    ensures r.Expands? ==> (Jumps(r.code, v) <==> min < 0 <= max && v.Int? && min <= v.n <= max)
    ensures room > max - min ==>
              (r.LoopFails? <==> !TableRange(!AllInts(c.clauses), min, max) && !(min < 0 <= max))
  {
    var chars := !AllInts(c.clauses);
    KeysOfKind(c, min, max);
    if r.Expands? { FixnumStop(chars, heap, min, max, |r.code.table|); }
    if r.LoopFails? && room > max - min {
      var len: nat := if min < 0 <= max then 0 else max - min + 1;
      if min < 0 <= max || TableRange(chars, min, max) {
        FixnumStop(chars, heap, min, max, len);
        assert EndsAfter(chars, heap, room, min, max, len);
        assert false;
      }
    }
  }

  /** With keys of both signs, the cond chain still finds them. */
  lemma {:induction false} MixedSigns(c: CaseForm, min: int, max: int, heap: Heap, room: nat, code: Code, v: Obj)
    requires Addresses(heap)
    requires Spans(HashOf(c.e, c.clauses), min, max) && Picked(c, min, max, heap, room, Expands(code))
    requires code.DenseCode? && IsFixnum(min) && IsFixnum(max) && min < 0 <= max
    ensures code.table == [] && (Run(c, code, v) == JumpsOut <==> v.Int? && min <= v.n <= max)
    ensures RunCond(c, v) != JumpsOut
  {
    FixnumTable(c, min, max, heap, room, Expands(code), v);
    TableDispatches(c, min, max, code, v);
    ChainIs(c.e, c.clauses, c.fallback, v);
    var hash, k := HashOf(c.e, c.clauses), Canon(c.e, v);
  }

  /** From a fixnum to a bignum, the table is always too short, so that the greatest key is
      among what jumps out. It is empty unless the least key's word is no greater than the
      greatest key's address. */
  lemma {:induction false} BignumAbove(c: CaseForm, min: int, max: int, heap: Heap, room: nat, code: Code, v: Obj)
    requires Addresses(heap)
    requires Spans(HashOf(c.e, c.clauses), min, max) && Picked(c, min, max, heap, room, Expands(code))
    requires code.DenseCode? && IsFixnum(min) && max > NUM_MAX
    ensures Run(c, code, v) == JumpsOut <==> v.Int? && min + |code.table| <= v.n <= max
    ensures min + |code.table| < max && RunCond(c, v) != JumpsOut
    ensures code.table == [] <==> min < 0 || 4 * min + 1 > heap.last
  {
    BignumKind(c, min, max);
    BignumStop(heap, min, max, |code.table|);
    TableJumps(c, min, max, code, v);
    ChainIs(c.e, c.clauses, c.fallback, v);
  }

  /** From a fixnum on, what is beyond the end of the table jumps out. */
  lemma {:induction false} TableJumps(c: CaseForm, min: int, max: int, code: Code, v: Obj)
    requires Spans(HashOf(c.e, c.clauses), min, max) && AllInts(c.clauses) && IsFixnum(min)
    requires code.DenseCode? && TableFits(c, HashOf(c.e, c.clauses), false, min, max, code)
    ensures Run(c, code, v) == JumpsOut <==> v.Int? && min + |code.table| <= v.n <= max
  {
    TableLooksUp(c, min, max, code, v);
    NotMistaken(code, v);
  }

  lemma {:induction false} NotMistaken(code: Code, v: Obj)
    requires code.DenseCode? && IsFixnum(code.min)
    ensures Taken(code, v) == v
    ensures Jumps(code, v) <==> InRange(code.chars, code.min, code.max, v) && Number(v) >= code.min + |code.table|
  {
  }

  lemma {:induction false} BignumKind(c: CaseForm, min: int, max: int)
    requires Spans(HashOf(c.e, c.clauses), min, max) && WantsTable(c, HashOf(c.e, c.clauses), min, max)
    requires max > NUM_MAX
    ensures c.e != Eq && AllInts(c.clauses) && min <= max
  {
    KeysOfKind(c, min, max);
  }

  /** With fewer than 2^60 keys it always is empty, and every integer in range jumps out. */
  lemma {:induction false} BignumEmpty(c: CaseForm, min: int, max: int, heap: Heap, room: nat, r: Expansion)
    requires Addresses(heap) && Spans(HashOf(c.e, c.clauses), min, max) && Picked(c, min, max, heap, room, r)
    requires WantsTable(c, HashOf(c.e, c.clauses), min, max) && IsFixnum(min) && max > NUM_MAX
    requires |HashOf(c.e, c.clauses)| < 0x1000_0000_0000_0000
    ensures r == Expands(DenseCode(false, min, max, []))
  {
    BignumKind(c, min, max);
    DenseAbove(min, max, |HashOf(c.e, c.clauses)|);
    assert EndsAfter(false, heap, room, min, max, 0);
    BignumStop(heap, min, max, |r.code.table|);
  }

  lemma {:induction false} DenseAbove(min: int, max: int, keys: nat)
    requires IsFixnum(min) && max > NUM_MAX && 4 * keys > 3 * Difference(max, min) && keys < 0x1000_0000_0000_0000
    ensures 4 * min > 0x0100_0000_0000_0000
  {
    MinusExact(Normal(max), Normal(min));
  }

  /** From a negative bignum to a fixnum or to a positive bignum, there is no table with fewer
      than 2^60 keys, however close together they are: the range comes out too wide. */
  lemma {:induction false} BignumBelow(c: CaseForm, hash: map<Obj, nat>, min: int, max: int)
    requires min < NUM_MIN <= max && |hash| < 0x1000_0000_0000_0000
    ensures !WantsTable(c, hash, min, max)
  {
    MinusExact(Normal(max), Normal(min));
  }

  /** A full table has room for every key, and fewer entries than four thirds of the keys plus
      one. */
  lemma {:induction false} TableSize(c: CaseForm, min: int, max: int, heap: Heap, room: nat, code: Code)
    requires Spans(HashOf(c.e, c.clauses), min, max) && Picked(c, min, max, heap, room, Expands(code))
    requires code.DenseCode?
    ensures |HashOf(c.e, c.clauses)| <= max - min + 1 && 3 * (max - min + 1) < 4 * |HashOf(c.e, c.clauses)| + 3
  {
    var hash, chars := HashOf(c.e, c.clauses), !AllInts(c.clauses);
    KeysOfKind(c, min, max);
    MinusExact(Normal(max), Normal(min));
    forall k | k in hash ensures k in RangeKeys(chars, min, max) {
      HitInTable(c, k);
      HashOfAt(c.e, c.clauses, k);
      InRangeKeys(chars, min, max, Number(k));
    }
    RangeCount(chars, min, max);
    Included(hash.Keys, RangeKeys(chars, min, max));
  }

  lemma {:induction false} Included(a: set<Obj>, b: set<Obj>)
    requires a <= b
    ensures |a| <= |b|
  {
    if a != {} {
      var x :| x in a;
      Included(a - {x}, b - {x});
    }
  }

  ghost function RangeKeys(chars: bool, min: int, max: int): set<Obj>
    requires chars ==> 0 <= min && max <= CHAR_MAX
    decreases max - min
  {
    if max < min then {} else RangeKeys(chars, min, max - 1) + {KeyAt(chars, max)}
  }

  lemma {:induction false} RangeCount(chars: bool, min: int, max: int)
    requires (chars ==> 0 <= min && max <= CHAR_MAX) && min <= max + 1
    ensures |RangeKeys(chars, min, max)| <= max - min + 1
    decreases max - min
  {
    if min <= max { RangeCount(chars, min, max - 1); }
  }

  lemma {:induction false} InRangeKeys(chars: bool, min: int, max: int, n: int)
    requires (chars ==> 0 <= min && max <= CHAR_MAX) && min <= n <= max
    ensures KeyAt(chars, n) in RangeKeys(chars, min, max)
    decreases max - min
  {
    if n < max { InRangeKeys(chars, min, max - 1, n); }
  }

  // ---- Inputs on which the forms differ ------------------------------------------------------

  function SixKeys(n: int): seq<Obj> {
    [Int(n, 0), Int(n + 1, 0), Int(n + 2, 0), Int(n + 3, 0), Int(n + 4, 0), Int(n + 5, 0)]
  }

  lemma {:induction false} SixFiled(n: int, index: nat)
    ensures var hash := PutKeys(map[], Eql, SixKeys(n), index);
            |hash| == 6 && (forall k | k in hash :: k.Int? && n <= k.n <= n + 5)
            && Int(n, 0) in hash && Int(n + 5, 0) in hash
  {
    var keys := SixKeys(n);
    var hash := PutKeys(map[], Eql, keys, index);
    forall k ensures k in hash <==> k in {keys[0], keys[1], keys[2], keys[3], keys[4], keys[5]} {
      PutKeysAt(map[], Eql, keys, index, k);
      if k in keys {
        var j :| 0 <= j < 6 && keys[j] == k;
        assert Canon(Eql, keys[j]) == k;
      }
    }
    assert hash.Keys == {keys[0], keys[1], keys[2], keys[3], keys[4], keys[5]};
  }

  function NegativeForm(): CaseForm {
    CaseForm(Eql, [Clause(SixKeys(-1), [1])], None)
  }

  /** Keys -1 to 4: the cond chain finds 2, the table has no entry for it. */
  lemma {:induction false} NegativeExample(min: int, max: int, heap: Heap, room: nat, code: Code)
    requires Addresses(heap)
    requires var c := NegativeForm();
             Spans(HashOf(c.e, c.clauses), min, max) && Picked(c, min, max, heap, room, Expands(code))
    ensures Run(NegativeForm(), code, Int(2, 0)) == JumpsOut && RunCond(NegativeForm(), Int(2, 0)) == Runs([1])
  {
    var c := NegativeForm();
    SixFiled(-1, 0);
    assert c.clauses[..0] == [];
    assert HashOf(Eql, c.clauses) == PutKeys(map[], Eql, SixKeys(-1), 0);
    MixedSigns(c, min, max, heap, room, code, Int(2, 0));
    assert Matches(Eql, SixKeys(-1)[3], Int(2, 0));
  }

  function BignumForm(n: int): CaseForm {
    CaseForm(Eql, [Clause(SixKeys(n), [1])], None)
  }

  /** Keys from NUM_MAX - 2 to NUM_MAX + 3: the cond chain finds them, the empty table none. */
  lemma {:induction false} BignumExample(min: int, max: int, heap: Heap, room: nat, r: Expansion, j: nat)
    requires Addresses(heap) && j < 6
    requires var c := BignumForm(NUM_MAX - 2);
             Spans(HashOf(c.e, c.clauses), min, max) && Picked(c, min, max, heap, room, r)
    ensures var c := BignumForm(NUM_MAX - 2);
            && r == Expands(DenseCode(false, NUM_MAX - 2, NUM_MAX + 3, []))
            && Run(c, r.code, SixKeys(NUM_MAX - 2)[j]) == JumpsOut
            && RunCond(c, SixKeys(NUM_MAX - 2)[j]) == Runs([1])
  {
    var n := NUM_MAX - 2;
    var c := BignumForm(n);
    BignumEnds(n, min, max);
    BignumEmpty(c, min, max, heap, room, r);
    BignumAbove(c, min, max, heap, room, r.code, SixKeys(n)[j]);
    assert Matches(Eql, SixKeys(n)[j], SixKeys(n)[j]);
  }

  lemma {:induction false} BignumEnds(n: int, min: int, max: int)
    requires var c := BignumForm(n); Spans(HashOf(c.e, c.clauses), min, max)
    ensures var c := BignumForm(n);
            && min == n && max == n + 5 && |HashOf(c.e, c.clauses)| == 6 && AllInts(c.clauses)
            && (WantsTable(c, HashOf(c.e, c.clauses), min, max) <==> 24 > 3 * Difference(n + 5, n))
  {
    var c := BignumForm(n);
    SixFiled(n, 0);
    assert c.clauses[..0] == [];
    assert HashOf(Eql, c.clauses) == PutKeys(map[], Eql, SixKeys(n), 0);
  }

  /** Six keys around NUM_MIN, as close together, get the cond chain. */
  lemma {:induction false} BelowExample(min: int, max: int, heap: Heap, room: nat, r: Expansion)
    requires var c := BignumForm(NUM_MIN - 2);
             Spans(HashOf(c.e, c.clauses), min, max) && Picked(c, min, max, heap, room, r)
    ensures r == Expands(CondCode)
  {
    BignumEnds(NUM_MIN - 2, min, max);
    BignumBelow(BignumForm(NUM_MIN - 2), HashOf(Eql, BignumForm(NUM_MIN - 2).clauses), min, max);
  }

  function DuplicateForm(): CaseForm {
    CaseForm(Eql, [Clause(SixKeys(0), [1]), Clause([Int(0, 0)], [2])], Some([]))
  }

  lemma {:induction false} DuplicateHash()
    ensures HashOf(Eql, DuplicateForm().clauses) == PutKeys(map[], Eql, SixKeys(0), 0)[Int(0, 0) := 1]
  {
    var clauses := DuplicateForm().clauses;
    assert clauses[..1] == [clauses[0]] && clauses[..1][..0] == [];
    assert HashOf(Eql, clauses[..1]) == PutKeys(map[], Eql, SixKeys(0), 0);
    assert clauses[1].keys[..0] == [];
  }

  /** Key 0 in two clauses and a lone (t): for 0 the table runs the second clause and the
      cond chain the first; for a symbol the table gives nil and the cond chain t. */
  lemma {:induction false} DuplicateExample(min: int, max: int, heap: Heap, room: nat, code: Code)
    requires Addresses(heap)
    requires var c := DuplicateForm();
             Spans(HashOf(c.e, c.clauses), min, max) && Picked(c, min, max, heap, room, Expands(code))
    ensures RunCond(DuplicateForm(), Int(0, 0)) == Runs([1]) && Run(DuplicateForm(), code, Int(0, 0)) == Runs([2])
    ensures RunCond(DuplicateForm(), Sym(7)) == ReturnsTrue && Run(DuplicateForm(), code, Sym(7)) == Runs([])
  {
    DuplicateTable(min, max, heap, room, code, Int(0, 0));
    DuplicateTable(min, max, heap, room, code, Sym(7));
    DuplicateMatches();
  }

  lemma {:induction false} DuplicateTable(min: int, max: int, heap: Heap, room: nat, code: Code, v: Obj)
    requires Addresses(heap)
    requires var c := DuplicateForm();
             Spans(HashOf(c.e, c.clauses), min, max) && Picked(c, min, max, heap, room, Expands(code))
    ensures Dispatches(DuplicateForm(), v, Run(DuplicateForm(), code, v))
  {
    var c := DuplicateForm();
    SixFiled(0, 0);
    DuplicateHash();
    assert HashOf(Eql, c.clauses).Keys == PutKeys(map[], Eql, SixKeys(0), 0).Keys;
    FixnumTable(c, min, max, heap, room, Expands(code), v);
    TableDispatches(c, min, max, code, v);
  }

  lemma {:induction false} DuplicateMatches()
    ensures var c := DuplicateForm();
            && LastMatch(c.e, c.clauses, Int(0, 0), 1) && NoMatch(c.e, c.clauses, Sym(7))
            && RunCond(c, Int(0, 0)) == Runs([1]) && RunCond(c, Sym(7)) == ReturnsTrue
  {
    var c := DuplicateForm();
    assert Matches(Eql, SixKeys(0)[0], Int(0, 0)) && Matches(Eql, c.clauses[1].keys[0], Int(0, 0));
    ChainIs(Eql, c.clauses, c.fallback, Sym(7));
  }
}
