/**
 * Where the generations of one bucket are found: file number 0 is the logging file itself,
 * number i its name followed by ".i".  k rolls have been made, so generation k is the
 * current one and k - d the one d rolls ago.
 */
module FileNumbers {
  /**
   * append: whether numbers are cycled (append mode) or files renamed (shift mode);
   * no: the cycled counter; s: the counter when the bucket was opened; stray: the bucket
   * was opened on file 0 while the counter stood elsewhere.
   */
  datatype Numbering = Numbering(append: bool, max: nat, s: nat, stray: bool, no: nat)

  /** d places behind no on a cycle of max. */
  function Back(no: int, d: int, max: int): int {
    if d <= no then no - d else no - d + max
  }

  function Slot(p: Numbering, k: nat, d: nat): int {
    if !p.append then d else if p.stray && d == k then 0 else Back(p.no, d, p.max)
  }

  /** Generation k - d is still in a file. */
  predicate Survives(p: Numbering, k: nat, d: nat) {
    d <= k && if p.append && p.stray && d == k then p.s + k < p.max else d < p.max
  }

  function Rolled(p: Numbering): Numbering
    requires p.max > 0
  {
    if p.append then p.(no := (p.no + 1) % p.max) else p
  }

  /** The counter follows the rolls, spelled out for its first two rounds. */
  predicate Counted(p: Numbering, k: nat) {
    && p.max >= 1
    && if p.append then
         && p.no < p.max && p.s < p.max && (p.stray ==> p.s > 0)
         && (p.s + k < p.max ==> p.no == p.s + k)
         && (p.max <= p.s + k < 2 * p.max ==> p.no == p.s + k - p.max)
       else !p.stray
  }

  lemma Next(no: nat, max: nat)
    requires no < max
    ensures (no + 1) % max == if no + 1 == max then 0 else no + 1
  {
  }

  lemma CountedRolls(p: Numbering, k: nat)
    requires Counted(p, k)
    ensures Counted(Rolled(p), k + 1)
  {
    if p.append {
      Next(p.no, p.max);
    }
  }

  /** A roll takes one file number over and moves the others on by one generation. */
  lemma SlotRolls(p: Numbering, k: nat, d: nat)
    requires Counted(p, k) && d <= k
    ensures var q := Rolled(p);
            var newest, was := Slot(q, k + 1, 0), Slot(p, k, d);
            && (Survives(p, k, d) ==> 0 <= was < p.max)
            && (Survives(q, k + 1, d + 1) <==> Survives(p, k, d) && if p.append then was != newest else was + 1 < p.max)
            && (Survives(q, k + 1, d + 1) ==>
                  Slot(q, k + 1, d + 1) == (if p.append then was else was + 1) && Slot(q, k + 1, d + 1) != newest)
  {
    if p.append {
      Next(p.no, p.max);
    }
  }

  /** How many of the generations made are kept. */
  function Window(k: nat, max: nat): nat {
    if k + 1 < max then k + 1 else max
  }

  /**
   * The bucket was not opened with the counter elsewhere, or has not rolled past the end of
   * the numbers yet, or has rolled so often that its first generation would be gone anyway.
   */
  predicate Whole(p: Numbering, k: nat) {
    !p.stray || p.s + k < p.max || k >= p.max
  }

  /** How many generations are kept, one short when the bucket is not whole. */
  function KeptCount(p: Numbering, k: nat): nat
    requires p.max >= 1
  {
    if Whole(p, k) then Window(k, p.max) else Window(k, p.max) - 1
  }

  /** The generations that survive are the last ones. */
  lemma SurvivorsAreLast(p: Numbering, k: nat, d: nat)
    requires Counted(p, k)
    ensures KeptCount(p, k) <= k + 1 && (Survives(p, k, d) <==> d < KeptCount(p, k))
  {
  }

  /** Where the counter stands when the bucket is not whole, and whose number 0 then is. */
  lemma ZeroTaken(p: Numbering, k: nat)
    requires Counted(p, k) && !Whole(p, k)
    ensures var d := p.s + k - p.max; 0 <= d < k && Survives(p, k, d) && Slot(p, k, d) == 0
  {
  }

  /** Different generations have different numbers, all below max. */
  lemma SlotsDiffer(p: Numbering, k: nat, d: nat, e: nat)
    requires Counted(p, k) && Survives(p, k, d) && Survives(p, k, e)
    ensures 0 <= Slot(p, k, d) < p.max
    ensures d != e ==> Slot(p, k, d) != Slot(p, k, e)
  {
  }
}

/** Rolling log files (rollingfile.c), on a file system whose operations succeed. */
module RollingFile {
  import opened Wrappers
  import opened LittleEndian
  import opened Generations
  import opened FileNumbers

  /** The name of a log file after the common path: base, or base followed by ".no". */
  datatype Name = Name(base: string, no: nat)

  type Files = map<Name, seq<Byte>>

  const UINT32: nat := 0x1_0000_0000
  const ROF_MAXFILESIZE: nat := 68719476736
  const ROF_MAXFILECOUNT: nat := 1000000

  /** CHKCONFIG_INT_VALUE on an unsigned value; minusOne is what -1 becomes at its width. */
  function Checked(value: nat, minusOne: nat, default: nat, min: nat, max: nat): (r: nat)
    requires 0 < min <= default <= max < minusOne
    ensures min <= r <= max
    ensures value == 0 ==> r == default
    ensures value == minusOne ==> r == max
    ensures value != 0 && value != minusOne ==> forall x :: min <= x <= max ==> Apart(value, r) <= Apart(value, x)
  {
    if value == 0 then default
    else if value == minusOne then max
    else if value < min then min
    else if value > max then max
    else value
  }

  function Apart(x: int, y: int): nat {
    if x < y then y - x else x - y
  }

  /** What renaming does to the files of base: number i moves to i + 1, the last one falls off, 0 is free. */
  ghost predicate Shifted(before: Files, after: Files, base: string, max: nat) {
    && (forall n: Name :: n.base != base || n.no >= max ==> SameFile(before, after, n))
    && (forall n: Name :: n.base == base && 1 <= n.no < max ==> NumberMoved(before, after, n, max))
    && Name(base, 0) !in after
  }

  predicate NumberMoved(before: Files, after: Files, n: Name, max: nat)
    requires n.no >= 1
  {
    var from := Name(n.base, n.no - 1);
    && (n in after <==> from in before || (n.no == max - 1 && n in before))
    && (n in after ==> after[n] == if from in before then before[from] else before[n])
  }

  function MovedUp(fs: Files, base: string, i: nat): Files
    requires i >= 1
  {
    var from := Name(base, i - 1);
    if from in fs then (fs - {from})[Name(base, i) := fs[from]] else fs
  }

  /** The renaming loop has handled the numbers from i on. */
  ghost predicate PartShifted(before: Files, after: Files, base: string, max: nat, i: nat)
    requires i >= 1
  {
    && (forall n: Name :: n.base != base || n.no >= max || n.no < i - 1 || (n.no < i && i == max) ==>
          SameFile(before, after, n))
    && (forall n: Name :: n.base == base && i <= n.no < max ==> NumberMoved(before, after, n, max))
    && (i < max ==> Name(base, i - 1) !in after)
  }

  predicate SameFile(before: Files, after: Files, n: Name) {
    (n in after <==> n in before) && (n in after ==> after[n] == before[n])
  }

  lemma MoveUpShifts(before: Files, fs: Files, base: string, max: nat, i: nat)
    requires 1 <= i < max && PartShifted(before, fs, base, max, i + 1)
    ensures PartShifted(before, MovedUp(fs, base, i), base, max, i)
  {
    var fs', from, to := MovedUp(fs, base, i), Name(base, i - 1), Name(base, i);
    assert SameFile(before, fs, from);
    assert i == max - 1 ==> SameFile(before, fs, to);
    forall n: Name | n.base == base && i <= n.no < max
      ensures NumberMoved(before, fs', n, max)
    {
      if n.no > i {
        assert NumberMoved(before, fs, n, max);
        assert SameFile(fs, fs', n);
      }
    }
    forall n: Name | n.base != base || n.no >= max || n.no < i - 1
      ensures SameFile(before, fs', n)
    {
      assert SameFile(before, fs, n);
    }
  }

  lemma AllShifted(before: Files, fs: Files, base: string, max: nat)
    requires max >= 1 && PartShifted(before, fs, base, max, 1)
    ensures Shifted(before, fs - {Name(base, 0)}, base, max)
  {
    var fs' := fs - {Name(base, 0)};
    forall n: Name | n.base == base && 1 <= n.no < max
      ensures NumberMoved(before, fs', n, max)
    {
      assert NumberMoved(before, fs, n, max);
    }
  }

  predicate Has(fs: Files, n: Name, content: seq<Byte>) {
    n in fs && fs[n] == content
  }

  /** Generation |gens| - 1 - d, if it survives, is in the file the numbering says. */
  predicate InPlace(fs: Files, base: string, gens: seq<seq<Message>>, p: Numbering, d: nat)
    requires d < |gens|
  {
    var k := |gens| - 1;
    Survives(p, k, d) ==> 0 <= Slot(p, k, d) && Has(fs, Name(base, Slot(p, k, d)), Bytes(gens[k - d]))
  }

  ghost predicate Holds(fs: Files, base: string, gens: seq<seq<Message>>, p: Numbering) {
    forall d :: 0 <= d < |gens| ==> InPlace(fs, base, gens, p, d)
  }

  /** File number no holds a surviving generation. */
  ghost predicate Used(p: Numbering, k: nat, no: nat) {
    exists d: nat :: Survives(p, k, d) && no == Slot(p, k, d)
  }

  /** The bucket has no other files. */
  ghost predicate NoOthers(fs: Files, base: string, p: Numbering, k: nat) {
    forall n :: n in fs && n.base == base ==> Used(p, k, n.no)
  }

  lemma HoldsAfterAppend(fs: Files, base: string, gens: seq<seq<Message>>, p: Numbering, more: seq<seq<Message>>)
    requires p.append && gens != [] && Counted(p, |gens| - 1) && Holds(fs, base, gens, p) && more == gens + [[]]
    ensures Holds(fs[Name(base, Rolled(p).no) := []], base, more, Rolled(p))
  {
    var fs', q := fs[Name(base, Rolled(p).no) := []], Rolled(p);
    forall d | 0 <= d < |more|
      ensures InPlace(fs', base, more, q, d)
    {
      if d > 0 {
        assert InPlace(fs, base, gens, p, d - 1);
        SlotRolls(p, |gens| - 1, d - 1);
      }
    }
  }

  lemma NoOthersAfterAppend(fs: Files, base: string, p: Numbering, k: nat)
    requires p.append && Counted(p, k) && NoOthers(fs, base, p, k)
    ensures NoOthers(fs[Name(base, Rolled(p).no) := []], base, Rolled(p), k + 1)
  {
    var fs', q := fs[Name(base, Rolled(p).no) := []], Rolled(p);
    forall n | n in fs' && n.base == base
      ensures Used(q, k + 1, n.no)
    {
      if n.no == q.no {
        assert Survives(q, k + 1, 0) && n.no == Slot(q, k + 1, 0);
      } else {
        var d: nat :| Survives(p, k, d) && n.no == Slot(p, k, d);
        SlotRolls(p, k, d);
        assert Survives(q, k + 1, d + 1) && n.no == Slot(q, k + 1, d + 1);
      }
    }
  }

  lemma HoldsAfterShift(fs: Files, mid: Files, base: string, gens: seq<seq<Message>>, p: Numbering, more: seq<seq<Message>>)
    requires !p.append && gens != [] && Counted(p, |gens| - 1) && Holds(fs, base, gens, p) && more == gens + [[]]
    requires Shifted(fs, mid, base, p.max)
    ensures Holds(mid[Name(base, 0) := []], base, more, p)
  {
    var fs' := mid[Name(base, 0) := []];
    forall d | 0 <= d < |more|
      ensures InPlace(fs', base, more, p, d)
    {
      if 0 < d < p.max {
        assert InPlace(fs, base, gens, p, d - 1);
        assert NumberMoved(fs, mid, Name(base, d), p.max);
      }
    }
  }

  lemma NoOthersAfterShift(fs: Files, mid: Files, base: string, p: Numbering, k: nat)
    requires !p.append && Counted(p, k) && NoOthers(fs, base, p, k) && Shifted(fs, mid, base, p.max)
    ensures NoOthers(mid[Name(base, 0) := []], base, p, k + 1)
  {
    var fs' := mid[Name(base, 0) := []];
    forall n | n in fs' && n.base == base
      ensures Used(p, k + 1, n.no)
    {
      assert n in fs ==> Used(p, k, n.no);
      if 0 < n.no < p.max {
        assert NumberMoved(fs, mid, n, p.max);
        var from := Name(base, n.no - 1);
        assert from in fs ==> Used(p, k, from.no);
      }
      assert n.no < p.max ==> (Survives(p, k + 1, n.no) && n.no == Slot(p, k + 1, n.no)) || n.no > k + 1;
    }
  }

  /** A message written to the current file. */
  lemma HoldsAfterWrite(fs: Files, base: string, gens: seq<seq<Message>>, p: Numbering, m: Message, more: seq<seq<Message>>)
    requires gens != [] && Counted(p, |gens| - 1) && Holds(fs, base, gens, p)
    requires var k := |gens| - 1; more == gens[..k] + [gens[k] + [m]]
    ensures var at := Name(base, Slot(p, |gens| - 1, 0)); at in fs && Holds(fs[at := fs[at] + m], base, more, p)
  {
    var k := |gens| - 1;
    assert InPlace(fs, base, gens, p, 0) && Survives(p, k, 0);
    var at := Name(base, Slot(p, k, 0));
    Snoc(gens[k], m);
    var fs' := fs[at := fs[at] + m];
    forall d | 0 <= d < |more|
      ensures InPlace(fs', base, more, p, d)
    {
      assert InPlace(fs, base, gens, p, d);
      if Survives(p, k, d) {
        SlotsDiffer(p, k, 0, d);
      }
    }
  }

  lemma NoOthersAfterWrite(fs: Files, base: string, p: Numbering, k: nat, at: Name, content: seq<Byte>)
    requires NoOthers(fs, base, p, k) && at in fs
    ensures NoOthers(fs[at := content], base, p, k)
  {
  }

  ghost predicate OthersKept(before: Files, after: Files, base: string) {
    forall n: Name :: n.base != base ==> SameFile(before, after, n)
  }

  /** What rollingfile_update does to the files, newest being the number of the new one. */
  ghost predicate Updated(before: Files, after: Files, base: string, append: bool, max: nat, newest: nat) {
    if append then after == before[Name(base, newest) := []]
    else newest == 0 && exists mid :: Shifted(before, mid, base, max) && after == mid[Name(base, 0) := []]
  }

  lemma UpdateFacts(before: Files, after: Files, base: string, append: bool, max: nat, newest: nat)
    requires Updated(before, after, base, append, max, newest)
    ensures OthersKept(before, after, base) && Has(after, Name(base, newest), [])
  {
  }

  /** An update keeps the surviving generations in place. */
  lemma HoldsAfterUpdate(fs: Files, fs': Files, base: string, gens: seq<seq<Message>>, p: Numbering, more: seq<seq<Message>>)
    requires gens != [] && Counted(p, |gens| - 1) && Holds(fs, base, gens, p) && more == gens + [[]]
    requires Updated(fs, fs', base, p.append, p.max, if p.append then Rolled(p).no else 0)
    ensures Holds(fs', base, more, Rolled(p))
    ensures NoOthers(fs, base, p, |gens| - 1) ==> NoOthers(fs', base, Rolled(p), |gens|)
  {
    if p.append {
      HoldsAfterAppend(fs, base, gens, p, more);
      if NoOthers(fs, base, p, |gens| - 1) {
        NoOthersAfterAppend(fs, base, p, |gens| - 1);
      }
    } else {
      var mid :| Shifted(fs, mid, base, p.max) && fs' == mid[Name(base, 0) := []];
      HoldsAfterShift(fs, mid, base, gens, p, more);
      if NoOthers(fs, base, p, |gens| - 1) {
        NoOthersAfterShift(fs, mid, base, p, |gens| - 1);
      }
    }
  }

  /** An open bucket: its surviving generations in place, the current file open at its end. */
  ghost predicate Arranged(fs: Files, base: string, gens: seq<seq<Message>>, p: Numbering,
                           at: Option<Name>, offset: nat, alone: bool)
  {
    var k := |gens| - 1;
    && gens != [] && Counted(p, k) && Holds(fs, base, gens, p)
    && at == Some(Name(base, Slot(p, k, 0))) && offset == Size(gens[k])
    && (alone ==> NoOthers(fs, base, p, k))
  }

  lemma ArrangedAfterWrite(fs: Files, base: string, gens: seq<seq<Message>>, p: Numbering,
                           at: Option<Name>, offset: nat, alone: bool, m: Message)
    requires Arranged(fs, base, gens, p, at, offset, alone)
    ensures at.Some? && at.value.base == base && at.value in fs
    ensures var k := |gens| - 1;
            Arranged(fs[at.value := fs[at.value] + m], base, gens[..k] + [gens[k] + [m]], p, at, offset + |m|, alone)
  {
    var k := |gens| - 1;
    var more := gens[..k] + [gens[k] + [m]];
    assert |more| == |gens| && more[k] == gens[k] + [m];
    HoldsAfterWrite(fs, base, gens, p, m, more);
    Snoc(gens[k], m);
    if alone {
      NoOthersAfterWrite(fs, base, p, k, at.value, fs[at.value] + m);
    }
  }

  lemma ArrangedAfterUpdate(fs: Files, fs': Files, base: string, gens: seq<seq<Message>>, p: Numbering,
                            at: Option<Name>, offset: nat, alone: bool)
    requires Arranged(fs, base, gens, p, at, offset, alone)
    requires Updated(fs, fs', base, p.append, p.max, if p.append then Rolled(p).no else 0)
    ensures Arranged(fs', base, gens + [[]], Rolled(p), Some(Name(base, if p.append then Rolled(p).no else 0)), 0, alone)
  {
    CountedRolls(p, |gens| - 1);
    HoldsAfterUpdate(fs, fs', base, gens, p, gens + [[]]);
  }

  lemma ArrangedAtOpen(fs: Files, fs': Files, base: string, p: Numbering, at: Option<Name>)
    requires Counted(p, 0) && at == Some(Name(base, Slot(p, 0, 0))) && Has(fs', Name(base, Slot(p, 0, 0)), [])
    requires Absent(fs, base) ==> fs' == fs[Name(base, 0) := []] && Slot(p, 0, 0) == 0
    ensures Arranged(fs', base, [[]], p, at, 0, Absent(fs, base))
  {
    OpenHolds(fs', base, p);
    if Absent(fs, base) {
      OpenNoOthers(fs, base, p);
    }
  }

  /** Where the append counter stands once bucket base is open: one on, if its file existed already. */
  function OpeningNumber(fs: Files, base: string, append: bool, no: nat, max: nat): nat
    requires max > 0
  {
    if append && Name(base, 0) in fs then (no + 1) % max else no
  }

  ghost predicate Absent(fs: Files, base: string) {
    forall n: Name :: n in fs ==> n.base != base
  }

  lemma OpenHolds(fs: Files, base: string, p: Numbering)
    requires Slot(p, 0, 0) >= 0 && Has(fs, Name(base, Slot(p, 0, 0)), [])
    ensures Holds(fs, base, [[]], p)
  {
  }

  lemma OpenNoOthers(fs: Files, base: string, p: Numbering)
    requires Absent(fs, base) && Counted(p, 0) && Slot(p, 0, 0) == 0
    ensures NoOthers(fs[Name(base, 0) := []], base, p, 0)
  {
    assert Survives(p, 0, 0);
    assert Used(p, 0, 0);
  }

  /**
   * What a logging file is called, after the common path: the key and the suffix, if there is
   * one; without a key "0" and the suffix, or nothing.
   */
  predicate IsBaseName(base: string, key: string, suffix: Option<string>) {
    && (key != "" && suffix.Some? ==> base == key + suffix.value)
    && (key != "" && suffix.None? ==> base == key)
    && (key == "" && suffix.Some? ==> base == "0" + suffix.value)
    && (key == "" && suffix.None? ==> base == "")
  }

  class Rolling {
    const datesuffix: Option<string>
    /** The file system. */
    var fs: Files
    var maxfilesize: nat
    var maxfilecount: nat
    var rollingappend: bool
    var loggingfile: Option<string>
    var appendfileno: nat
    var fhlogging: Option<Name>
    var offsetbytes: nat
    /** What was written to the current bucket, and how it was opened. */
    ghost var stream: seq<Message>
    ghost var gens: seq<seq<Message>>
    ghost var s: nat
    ghost var stray: bool
    ghost var alone: bool

    ghost function Numbers(): Numbering
      reads this
    {
      Numbering(rollingappend, maxfilecount, s, stray, appendfileno)
    }

    ghost predicate SettingsOk()
      reads this
    {
      1 <= maxfilesize <= ROF_MAXFILESIZE && 1 <= maxfilecount <= ROF_MAXFILECOUNT && appendfileno < maxfilecount
    }

    ghost predicate BucketOk(base: string)
      reads this
    {
      Arranged(fs, base, gens, Numbers(), fhlogging, offsetbytes, alone)
    }

    ghost predicate Valid()
      reads this
    {
      && SettingsOk() && offsetbytes < maxfilesize + UINT32
      && (loggingfile.Some? ==> gens == Cut(stream, maxfilesize) && BucketOk(loggingfile.value))
    }

    /** rollingfile_init, then rollingfile_set_sizepolicy. */
    constructor (files: Files, datesuffix: Option<string>, size: nat, count: nat, append: bool)
      requires size < 0x1_0000_0000_0000_0000 && count < 0x1_0000_0000
      ensures Valid() && loggingfile == None && fs == files && this.datesuffix == datesuffix && appendfileno == 0
      ensures fhlogging == None && offsetbytes == 0
      ensures maxfilesize == Checked(size, 0xFFFF_FFFF_FFFF_FFFF, 10485760, 1048576, 68719476736)
      ensures maxfilecount == Checked(count, 0xFFFF_FFFF, 10, 1, 1000000) && rollingappend == append
    {
      fs, this.datesuffix := files, datesuffix;
      maxfilesize := Checked(size, 0xFFFF_FFFF_FFFF_FFFF, 10485760, 1048576, ROF_MAXFILESIZE);
      maxfilecount := Checked(count, 0xFFFF_FFFF, 10, 1, ROF_MAXFILECOUNT);
      rollingappend, appendfileno := append, 0;
      loggingfile, fhlogging, offsetbytes := None, None, 0;
      stream, gens, s, stray, alone := [], [], 0, false, false;
    }

    /** file_create: exclusive creation, so an existing file is an error. */
    method Create(n: Name)
      modifies `fs, `fhlogging
      ensures fs == if n in old(fs) then old(fs) else old(fs)[n := []]
      ensures fhlogging == if n in old(fs) then None else Some(n)
    {
      if n in fs {
        fhlogging := None;
      } else {
        fs, fhlogging := fs[n := []], Some(n);
      }
    }

    /** pathfile_move onto a name that is free. */
    method Move(from: Name, to: Name)
      requires from in fs && from != to
      modifies `fs
      ensures fs == (old(fs) - {from})[to := old(fs)[from]]
    {
      fs := (fs - {from})[to := fs[from]];
    }

    /** One round of the renaming loop of rollingfile_update. */
    method ShiftOne(base: string, i: nat)
      requires i >= 1
      modifies `fs
      ensures fs == MovedUp(old(fs), base, i)
    {
      var filefrom, fileto := Name(base, i - 1), Name(base, i);
      if filefrom in fs {
        ghost var was := fs;
        if fileto in fs {
          fs := fs - {fileto};
        }
        Move(filefrom, fileto);
        assert fs == (was - {filefrom})[fileto := was[filefrom]];
      }
    }

    /** The renaming loop of rollingfile_update, and the removal after it. */
    method ShiftFiles(base: string)
      requires maxfilecount >= 1
      modifies `fs
      ensures Shifted(old(fs), fs, base, maxfilecount)
    {
      var i := maxfilecount;
      while i > 1
        invariant 1 <= i <= maxfilecount && PartShifted(old(fs), fs, base, maxfilecount, i)
      {
        i := i - 1;
        MoveUpShifts(old(fs), fs, base, maxfilecount, i);
        ShiftOne(base, i);
      }
      AllShifted(old(fs), fs, base, maxfilecount);
      fs := fs - {Name(base, 0)};
    }

    /** rollingfile_update: close the current file and open the next one, empty. */
    method RollingUpdate()
      requires SettingsOk() && loggingfile.Some?
      modifies `fs, `fhlogging, `offsetbytes, `appendfileno
      ensures SettingsOk() && offsetbytes == 0
      ensures appendfileno == if rollingappend then (old(appendfileno) + 1) % maxfilecount else old(appendfileno)
      ensures var newest := if rollingappend then appendfileno else 0;
              fhlogging == Some(Name(loggingfile.value, newest))
              && Updated(old(fs), fs, loggingfile.value, rollingappend, maxfilecount, newest)
    {
      fhlogging := None;
      var base := loggingfile.value;
      if rollingappend {
        appendfileno := (appendfileno + 1) % maxfilecount;
        var nextloggingfile := Name(base, appendfileno);
        ghost var was := fs;
        fs := fs - {nextloggingfile};
        Create(nextloggingfile);
        assert fs == was[nextloggingfile := []];
      } else {
        ShiftFiles(base);
        Create(Name(base, 0));
      }
      offsetbytes := 0;
    }

    /** The size check at the end of rollingfile_apply. */
    method CheckSize()
      requires SettingsOk() && loggingfile.Some? && BucketOk(loggingfile.value)
      modifies `fs, `fhlogging, `offsetbytes, `appendfileno, `gens
      ensures SettingsOk() && BucketOk(loggingfile.value) && offsetbytes < maxfilesize
      ensures gens == Ready(old(gens), maxfilesize)
      ensures OthersKept(old(fs), fs, loggingfile.value)
    {
      if offsetbytes >= maxfilesize {
        ghost var p := Numbers();
        RollingUpdate();
        UpdateFacts(old(fs), fs, loggingfile.value, rollingappend, maxfilecount, fhlogging.value.no);
        ArrangedAfterUpdate(old(fs), fs, loggingfile.value, gens, p, old(fhlogging), old(offsetbytes), alone);
        gens := gens + [[]];
      }
    }

    /** Opening the file of bucket base; when it exists already, an update gives a new one. */
    method OpenFile(base: string) returns (existed: bool)
      requires SettingsOk()
      modifies `fs, `fhlogging, `offsetbytes, `appendfileno, `loggingfile
      ensures SettingsOk() && loggingfile == Some(base) && offsetbytes == 0 && existed == (Name(base, 0) in old(fs))
      ensures appendfileno == if existed && rollingappend then (old(appendfileno) + 1) % maxfilecount else old(appendfileno)
      ensures fhlogging == Some(Name(base, if existed && rollingappend then appendfileno else 0))
      ensures Has(fs, fhlogging.value, []) && OthersKept(old(fs), fs, base)
      ensures !existed ==> fs == old(fs)[Name(base, 0) := []]
    {
      loggingfile := Some(base);
      existed := Name(base, 0) in fs;
      Create(Name(base, 0));
      offsetbytes := 0;
      if fhlogging == None && Name(base, 0) in fs {
        RollingUpdate();
        UpdateFacts(old(fs), fs, base, rollingappend, maxfilecount, fhlogging.value.no);
      }
    }

    /** Opening the bucket base for the first time, or for the first time since another one. */
    method Open(base: string)
      requires SettingsOk()
      modifies this
      ensures SettingsOk() && loggingfile == Some(base) && BucketOk(base) && offsetbytes == 0
      ensures maxfilesize == old(maxfilesize) && maxfilecount == old(maxfilecount) && rollingappend == old(rollingappend)
      ensures s == OpeningNumber(old(fs), base, rollingappend, old(appendfileno), maxfilecount)
      ensures stream == [] && gens == Cut(stream, maxfilesize) && s == appendfileno && alone == Absent(old(fs), base)
      ensures stray <==> rollingappend && old(appendfileno) != 0 && Name(base, 0) !in old(fs)
      ensures OthersKept(old(fs), fs, base)
    {
      ghost var before := fs;
      var existed := OpenFile(base);
      BeginBucket(base, before, existed);
    }

    /** Ghost bookkeeping for a bucket just opened. */
    ghost method BeginBucket(base: string, before: Files, existed: bool)
      requires SettingsOk() && existed == (Name(base, 0) in before) && offsetbytes == 0
      requires fhlogging == Some(Name(base, if existed && rollingappend then appendfileno else 0))
      requires Has(fs, fhlogging.value, [])
      requires !existed ==> fs == before[Name(base, 0) := []]
      modifies `stream, `gens, `s, `stray, `alone
      ensures BucketOk(base) && stream == [] && gens == Cut(stream, maxfilesize) && s == appendfileno
      ensures alone == Absent(before, base) && stray == (rollingappend && appendfileno != 0 && !existed)
    {
      stream, gens, s := [], [[]], appendfileno;
      stray := rollingappend && appendfileno != 0 && !existed;
      alone := Absent(before, base);
      ArrangedAtOpen(before, fs, base, Numbers(), fhlogging);
    }

    /** The name of the logging file for a date key; an empty key means the size policy. */
    function BaseName(dateminfmt: string): string {
      var key := if dateminfmt == "" && datesuffix.Some? then "0" else dateminfmt;
      if datesuffix.Some? then key + datesuffix.value else key
    }

    predicate Switches(dateminfmt: string)
      reads this
    {
      loggingfile == None || (dateminfmt != "" && !(dateminfmt <= loggingfile.value))
    }

    lemma NameIs(key: string)
      ensures IsBaseName(BaseName(key), key, datesuffix)
    {
    }

    /** The first part of rollingfile_apply: the bucket of the date key is open. */
    method OpenWanted(dateminfmt: string)
      requires Valid()
      modifies this
      ensures SettingsOk() && loggingfile.Some? && BucketOk(loggingfile.value)
      ensures maxfilesize == old(maxfilesize) && maxfilecount == old(maxfilecount) && rollingappend == old(rollingappend)
      ensures !old(Switches(dateminfmt)) ==>
                && loggingfile == old(loggingfile) && s == old(s) && stray == old(stray) && alone == old(alone)
                && stream == old(stream)
      ensures old(Switches(dateminfmt)) ==>
                && loggingfile == Some(BaseName(dateminfmt)) && stream == []
                && s == OpeningNumber(old(fs), BaseName(dateminfmt), rollingappend, old(appendfileno), maxfilecount)
                && alone == Absent(old(fs), BaseName(dateminfmt))
                && (stray <==> rollingappend && old(appendfileno) != 0 && Name(BaseName(dateminfmt), 0) !in old(fs))
      ensures gens == Cut(stream, maxfilesize)
      ensures OthersKept(old(fs), fs, loggingfile.value)
    {
      if |dateminfmt| > 0 {
        if loggingfile == None || !(dateminfmt <= loggingfile.value) {
          Open(BaseName(dateminfmt));
        }
      } else {
        if loggingfile == None {
          Open(BaseName(dateminfmt));
        }
      }
    }

    /** rollingfile_apply: the file the next message goes to. */
    method RollingApply(dateminfmt: string)
      requires Valid()
      modifies this
      ensures SettingsOk() && loggingfile.Some? && BucketOk(loggingfile.value) && offsetbytes < maxfilesize
      ensures maxfilesize == old(maxfilesize) && maxfilecount == old(maxfilecount) && rollingappend == old(rollingappend)
      ensures !old(Switches(dateminfmt)) ==>
                && loggingfile == old(loggingfile) && s == old(s) && stray == old(stray) && alone == old(alone)
                && stream == old(stream)
      ensures old(Switches(dateminfmt)) ==>
                && loggingfile == Some(BaseName(dateminfmt)) && IsBaseName(loggingfile.value, dateminfmt, datesuffix)
                && stream == []
                && s == OpeningNumber(old(fs), BaseName(dateminfmt), rollingappend, old(appendfileno), maxfilecount)
                && alone == Absent(old(fs), BaseName(dateminfmt))
                && (stray <==> rollingappend && old(appendfileno) != 0 && Name(BaseName(dateminfmt), 0) !in old(fs))
      ensures gens == Ready(Cut(stream, maxfilesize), maxfilesize)
      ensures OthersKept(old(fs), fs, loggingfile.value)
    {
      NameIs(dateminfmt);
      OpenWanted(dateminfmt);
      CheckSize();
    }

    /** rollingfile_write. */
    method RollingWrite(dateminfmt: string, message: Message)
      requires Valid() && |message| < 0x1_0000_0000
      modifies this
      ensures Valid() && loggingfile.Some?
      ensures maxfilesize == old(maxfilesize) && maxfilecount == old(maxfilecount) && rollingappend == old(rollingappend)
      ensures !old(Switches(dateminfmt)) ==>
                && stream == old(stream) + [message] && loggingfile == old(loggingfile)
                && s == old(s) && stray == old(stray) && alone == old(alone)
      ensures old(Switches(dateminfmt)) ==>
                && loggingfile == Some(BaseName(dateminfmt)) && IsBaseName(loggingfile.value, dateminfmt, datesuffix)
                && stream == [message]
                && s == OpeningNumber(old(fs), BaseName(dateminfmt), rollingappend, old(appendfileno), maxfilecount)
                && alone == Absent(old(fs), BaseName(dateminfmt))
                && (stray <==> rollingappend && old(appendfileno) != 0 && Name(BaseName(dateminfmt), 0) !in old(fs))
      ensures OthersKept(old(fs), fs, loggingfile.value)
    {
      RollingApply(dateminfmt);
      Append(message);
    }

    /** file_writebytes and the counting after it. */
    method WriteBytes(message: Message)
      requires SettingsOk() && loggingfile.Some? && BucketOk(loggingfile.value)
      modifies `fs, `offsetbytes, `gens
      ensures BucketOk(loggingfile.value) && offsetbytes == old(offsetbytes) + |message|
      ensures gens == old(gens)[..|old(gens)| - 1] + [old(gens)[|old(gens)| - 1] + [message]]
      ensures OthersKept(old(fs), fs, loggingfile.value)
    {
      ArrangedAfterWrite(fs, loggingfile.value, gens, Numbers(), fhlogging, offsetbytes, alone, message);
      var at := fhlogging.value;
      fs := fs[at := fs[at] + message];
      offsetbytes := offsetbytes + |message|;
      gens := gens[..|gens| - 1] + [gens[|gens| - 1] + [message]];
    }

    /** The rest of rollingfile_write after rollingfile_apply. */
    method Append(message: Message)
      requires SettingsOk() && loggingfile.Some? && BucketOk(loggingfile.value) && offsetbytes < maxfilesize
      requires gens == Ready(Cut(stream, maxfilesize), maxfilesize) && |message| < 0x1_0000_0000
      modifies `fs, `offsetbytes, `gens, `stream
      ensures Valid() && stream == old(stream) + [message]
      ensures OthersKept(old(fs), fs, loggingfile.value)
    {
      LoggedInTwo(Cut(stream, maxfilesize), message, maxfilesize);
      CutSnoc(stream, message, maxfilesize);
      WriteBytes(message);
      stream := stream + [message];
    }

    /**
     * What is on disk after any run of writes to a bucket: the stream is cut into files each
     * of which was closed as soon as it reached the limit, and the last ones, holding a
     * suffix of the stream, are kept whole.  The last maxfilecount of them are kept exactly
     * when the bucket is whole; otherwise its first generation has been overwritten too
     * early, under number 0.  offsetbytes is the length of the current file.
     */
    lemma OnDisk()
      requires Valid() && loggingfile.Some?
      ensures IsCut(gens, stream, maxfilesize)
      ensures var w := Window(|gens| - 1, maxfilecount);
              stream == Flatten(gens[..|gens| - w]) + Flatten(gens[|gens| - w..])
      ensures WhatIsKept(fs, loggingfile.value, gens, Numbers(), alone)
      ensures fhlogging.Some? && fhlogging.value in fs && |fs[fhlogging.value]| == offsetbytes
    {
      CutIsCut(stream, maxfilesize);
      WindowIsSuffix(gens, stream, |gens| - Window(|gens| - 1, maxfilecount));
      ArrangedMeans(fs, loggingfile.value, gens, Numbers(), fhlogging, offsetbytes, alone);
    }
  }

  /** The generation d rolls ago is in its file, whole. */
  predicate Kept(fs: Files, base: string, gens: seq<seq<Message>>, p: Numbering, d: nat)
    requires d < |gens|
  {
    0 <= Slot(p, |gens| - 1, d) < p.max && Has(fs, Name(base, Slot(p, |gens| - 1, d)), FileOf(gens, d))
  }

  /** The last n generations are kept. */
  ghost predicate LastKept(fs: Files, base: string, gens: seq<seq<Message>>, p: Numbering, n: nat)
    requires n <= |gens|
  {
    forall d :: 0 <= d < n ==> Kept(fs, base, gens, p, d)
  }

  /** The bytes of the generation d rolls ago. */
  function FileOf(gens: seq<seq<Message>>, d: nat): seq<Byte>
    requires d < |gens|
  {
    Bytes(gens[|gens| - 1 - d])
  }

  ghost function LastFiles(gens: seq<seq<Message>>, n: nat): set<seq<Byte>>
    requires n <= |gens|
  {
    set d | 0 <= d < n :: FileOf(gens, d)
  }

  ghost function FileNames(fs: Files, base: string): set<Name> {
    set n | n in fs && n.base == base
  }

  ghost function Contents(fs: Files, base: string): set<seq<Byte>> {
    set n | n in fs && n.base == base :: fs[n]
  }

  /**
   * The last generations are in their files: as many as the window holds exactly when the
   * bucket is whole, one fewer otherwise, its first generation's file having gone to a
   * later one.  On a clean directory there is nothing else.
   */
  ghost predicate WhatIsKept(fs: Files, base: string, gens: seq<seq<Message>>, p: Numbering, alone: bool) {
    && gens != [] && p.max >= 1
    && var k := |gens| - 1;
    var n := KeptCount(p, k);
    && n <= |gens| && LastKept(fs, base, gens, p, n)
    && (alone ==> |FileNames(fs, base)| == n && Contents(fs, base) == LastFiles(gens, n))
    && (!Whole(p, k) ==> 0 < p.max - p.s < |gens| && Has(fs, Name(base, 0), Bytes(gens[p.max - p.s])))
  }

  lemma ArrangedMeans(fs: Files, base: string, gens: seq<seq<Message>>, p: Numbering,
                      at: Option<Name>, offset: nat, alone: bool)
    requires Arranged(fs, base, gens, p, at, offset, alone)
    ensures WhatIsKept(fs, base, gens, p, alone)
    ensures at.Some? && at.value in fs && |fs[at.value]| == offset
  {
    var k := |gens| - 1;
    SurvivorsAreLast(p, k, 0);
    SurvivorsKept(fs, base, gens, p);
    if alone {
      NamesAreSurvivors(fs, base, gens, p);
      ContentsAreSurvivors(fs, base, gens, p);
    }
    if !Whole(p, k) {
      ZeroTaken(p, k);
      assert InPlace(fs, base, gens, p, p.s + k - p.max);
    }
    assert InPlace(fs, base, gens, p, 0) && Survives(p, k, 0);
    SizeIsLength(gens[k]);
  }

  lemma SurvivorsKept(fs: Files, base: string, gens: seq<seq<Message>>, p: Numbering)
    requires gens != [] && Counted(p, |gens| - 1) && Holds(fs, base, gens, p)
    ensures KeptCount(p, |gens| - 1) <= |gens| && LastKept(fs, base, gens, p, KeptCount(p, |gens| - 1))
  {
    var k := |gens| - 1;
    SurvivorsAreLast(p, k, 0);
    forall d | 0 <= d < KeptCount(p, k)
      ensures Kept(fs, base, gens, p, d)
    {
      SurvivorsAreLast(p, k, d);
      SlotsDiffer(p, k, d, d);
      assert InPlace(fs, base, gens, p, d);
    }
  }

  /** The names of the last n generations' files. */
  ghost function NamesOf(base: string, p: Numbering, k: nat, n: nat): set<Name>
    requires forall d :: 0 <= d < n ==> 0 <= Slot(p, k, d)
  {
    if n == 0 then {} else NamesOf(base, p, k, n - 1) + {Name(base, Slot(p, k, n - 1))}
  }

  /** x is the name of one of the last n generations' files. */
  ghost predicate NamesOne(base: string, p: Numbering, k: nat, n: nat, x: Name) {
    x.base == base && exists d: nat :: d < n && x.no == Slot(p, k, d)
  }

  lemma {:induction false} NamesAre(base: string, p: Numbering, k: nat, n: nat, x: Name)
    requires forall d :: 0 <= d < n ==> 0 <= Slot(p, k, d)
    ensures x in NamesOf(base, p, k, n) <==> NamesOne(base, p, k, n, x)
  {
    if n > 0 {
      NamesAre(base, p, k, n - 1, x);
      assert x == Name(base, Slot(p, k, n - 1)) ==> NamesOne(base, p, k, n, x);
    }
  }

  lemma {:induction false} NamesCount(base: string, p: Numbering, k: nat, n: nat)
    requires Counted(p, k) && forall d :: 0 <= d < n ==> Survives(p, k, d) && 0 <= Slot(p, k, d)
    ensures |NamesOf(base, p, k, n)| == n
  {
    if n > 0 {
      NamesCount(base, p, k, n - 1);
      var x := Name(base, Slot(p, k, n - 1));
      NamesAre(base, p, k, n - 1, x);
      forall d | 0 <= d < n - 1
        ensures Slot(p, k, d) != x.no
      {
        SlotsDiffer(p, k, d, n - 1);
      }
    }
  }

  lemma NamesAreSurvivors(fs: Files, base: string, gens: seq<seq<Message>>, p: Numbering)
    requires gens != [] && Counted(p, |gens| - 1) && Holds(fs, base, gens, p) && NoOthers(fs, base, p, |gens| - 1)
    ensures |FileNames(fs, base)| == KeptCount(p, |gens| - 1)
  {
    var k := |gens| - 1;
    var n := KeptCount(p, k);
    SurvivorsKept(fs, base, gens, p);
    forall d | 0 <= d < n
      ensures Survives(p, k, d) && 0 <= Slot(p, k, d) && Kept(fs, base, gens, p, d)
    {
      SurvivorsAreLast(p, k, d);
    }
    NamesCount(base, p, k, n);
    forall x | x in FileNames(fs, base)
      ensures x in NamesOf(base, p, k, n)
    {
      assert Used(p, k, x.no);
      var d: nat :| Survives(p, k, d) && x.no == Slot(p, k, d);
      SurvivorsAreLast(p, k, d);
      assert NamesOne(base, p, k, n, x);
      NamesAre(base, p, k, n, x);
    }
    forall x | x in NamesOf(base, p, k, n)
      ensures x in FileNames(fs, base)
    {
      NamesAre(base, p, k, n, x);
    }
    assert FileNames(fs, base) == NamesOf(base, p, k, n);
  }

  /** A bucket opened on a clean directory holds exactly its surviving generations, whatever the mode. */
  lemma ContentsAreSurvivors(fs: Files, base: string, gens: seq<seq<Message>>, p: Numbering)
    requires gens != [] && Counted(p, |gens| - 1)
    requires Holds(fs, base, gens, p) && NoOthers(fs, base, p, |gens| - 1)
    ensures KeptCount(p, |gens| - 1) <= |gens| && Contents(fs, base) == LastFiles(gens, KeptCount(p, |gens| - 1))
  {
    var k := |gens| - 1;
    var n := KeptCount(p, k);
    SurvivorsKept(fs, base, gens, p);
    forall x | x in fs && x.base == base
      ensures fs[x] in LastFiles(gens, n)
    {
      assert Used(p, k, x.no);
      var d: nat :| Survives(p, k, d) && x.no == Slot(p, k, d);
      SurvivorsAreLast(p, k, d);
      assert InPlace(fs, base, gens, p, d);
      assert FileOf(gens, d) == fs[x];
    }
    forall d | 0 <= d < n
      ensures FileOf(gens, d) in Contents(fs, base)
    {
      assert Kept(fs, base, gens, p, d);
      assert Name(base, Slot(p, k, d)) in fs;
    }
  }

  /**
   * Shift mode and append mode: two loggers given the same stream under the same limits keep
   * the same generations, each in its place, the second unless opened astray; on clean
   * directories as many files with the same contents.
   */
  lemma ModesAgree(shift: Rolling, append: Rolling)
    requires shift.Valid() && append.Valid() && shift.loggingfile.Some? && append.loggingfile.Some?
    requires !shift.rollingappend && append.rollingappend && !append.stray
    requires shift.stream == append.stream
    requires shift.maxfilesize == append.maxfilesize && shift.maxfilecount == append.maxfilecount
    ensures shift.gens == append.gens
    ensures var n := Window(|shift.gens| - 1, shift.maxfilecount);
            && LastKept(shift.fs, shift.loggingfile.value, shift.gens, shift.Numbers(), n)
            && LastKept(append.fs, append.loggingfile.value, shift.gens, append.Numbers(), n)
    ensures shift.alone && append.alone ==>
              && |FileNames(shift.fs, shift.loggingfile.value)| == |FileNames(append.fs, append.loggingfile.value)|
              && Contents(shift.fs, shift.loggingfile.value) == Contents(append.fs, append.loggingfile.value)
  {
    shift.OnDisk();
    append.OnDisk();
  }

  /** In append mode with two files, one roll under the date A leaves the counter at 1. */
  method CounterAtOne(big: Message) returns (r: Rolling)
    requires |big| == 1048576
    ensures fresh(r) && r.Valid() && r.loggingfile == Some("A") && r.appendfileno == 1 && Absent(r.fs, "B")
    ensures r.rollingappend && r.maxfilecount == 2 && r.maxfilesize == 1048576 && r.datesuffix == None
  {
    r := new Rolling(map[], None, 1048576, 2, true);
    TwoFiles(big, r.maxfilesize);
    r.RollingWrite("A", big);
    r.RollingWrite("A", big);
    assert r.stream == [big, big];
  }

  /**
   * A run that comes to a bucket opened astray: the date B is then opened on file 0, and its
   * first roll takes file 0 again, so one file is left where two generations could be.
   */
  method StrayBucket(big: Message) returns (r: Rolling)
    requires |big| == 1048576
    ensures fresh(r) && r.Valid() && r.loggingfile == Some("B") && r.alone && r.stream == [big, big]
    ensures r.gens == [[big], [big]] && r.maxfilecount == 2 && |FileNames(r.fs, "B")| == 1
  {
    r := CounterAtOne(big);
    assert "B"[0] != "A"[0] && r.Switches("B");
    r.RollingWrite("B", big);
    assert !r.Switches("B");
    r.RollingWrite("B", big);
    assert r.stream == [big, big];
    TwoFiles(big, r.maxfilesize);
    r.OnDisk();
  }
}
