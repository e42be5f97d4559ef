/**
 * Runs of the rolling logger: what becomes of the files when messages are written under a
 * sequence of keys that never comes back to one it has left.  KeyedRun is about any such
 * keys; RollingRun gets them from the clock.
 */
module KeyedRun {
  import opened Generations
  import opened FileNumbers
  import opened RollingFile

  /** The n-th key is the one before it, or none of those before it. */
  predicate StaysOrNew(keys: seq<string>, n: nat)
    requires 0 < n < |keys|
  {
    keys[n] == keys[n - 1] || keys[n] !in keys[..n]
  }

  /** A key that has been left does not come up again. */
  ghost predicate NeverBack(keys: seq<string>) {
    forall n :: 0 < n < |keys| ==> StaysOrNew(keys, n)
  }

  lemma NeverBackBefore(keys: seq<string>, m: nat)
    requires NeverBack(keys) && m <= |keys|
    ensures NeverBack(keys[..m])
  {
    forall n | 0 < n < m
      ensures StaysOrNew(keys[..m], n)
    {
      assert StaysOrNew(keys, n) && keys[..m][..n] == keys[..n];
    }
  }

  ghost predicate OneWidth(keys: seq<string>) {
    forall i, j :: 0 <= i < |keys| && 0 <= j < |keys| ==> 0 < |keys[i]| == |keys[j]|
  }

  /** The messages written under a key. */
  function MessagesOf(keys: seq<string>, messages: seq<Message>, key: string): seq<Message>
    requires |keys| == |messages|
  {
    if keys == [] then []
    else
      var n := |keys| - 1;
      MessagesOf(keys[..n], messages[..n], key) + if keys[n] == key then [messages[n]] else []
  }

  /** The keys, each as it comes up after another one. */
  function Openings(keys: seq<string>): seq<string> {
    if keys == [] then []
    else
      var n := |keys| - 1;
      Openings(keys[..n]) + if n == 0 || keys[n] != keys[n - 1] then [keys[n]] else []
  }

  ghost predicate Distinct(keys: seq<string>) {
    forall i, j :: 0 <= i < j < |keys| ==> keys[i] != keys[j]
  }

  ghost predicate SameKeys(a: seq<string>, b: seq<string>) {
    forall key :: key in a <==> key in b
  }

  /** One key more, new or the last one again. */
  lemma OpeningsStep(before: seq<string>, was: seq<string>, key: string)
    requires Distinct(was) && SameKeys(before, was)
    requires before != [] ==> was != [] && was[|was| - 1] == before[|before| - 1]
    requires before == [] || key == before[|before| - 1] || key !in before
    ensures var now := if before == [] || key != before[|before| - 1] then was + [key] else was;
            Distinct(now) && SameKeys(before + [key], now) && now != [] && now[|now| - 1] == key
  {
    if before == [] || key != before[|before| - 1] {
      assert key !in before;
      DistinctSnoc(was, key);
    }
  }

  lemma DistinctSnoc(was: seq<string>, key: string)
    requires Distinct(was) && key !in was
    ensures Distinct(was + [key])
  {
  }

  lemma LastKey(keys: seq<string>)
    requires NeverBack(keys) && keys != []
    ensures var before, key := keys[..|keys| - 1], keys[|keys| - 1];
            && keys == before + [key]
            && (before == [] || key == before[|before| - 1] || key !in before)
            && Openings(keys)
               == if before == [] || key != before[|before| - 1] then Openings(before) + [key] else Openings(before)
  {
    var n := |keys| - 1;
    assert n > 0 ==> StaysOrNew(keys, n) && keys[..n][n - 1] == keys[n - 1];
  }

  /** The openings are the keys, each once, the current one last. */
  lemma {:induction false} OpeningsAre(keys: seq<string>)
    requires NeverBack(keys)
    ensures Distinct(Openings(keys)) && SameKeys(keys, Openings(keys))
    ensures keys != [] ==> Openings(keys) != [] && Openings(keys)[|Openings(keys)| - 1] == keys[|keys| - 1]
  {
    if keys != [] {
      var n := |keys| - 1;
      var before := keys[..n];
      NeverBackBefore(keys, n);
      OpeningsAre(before);
      LastKey(keys);
      OpeningsStep(before, Openings(before), keys[n]);
    }
  }

  lemma {:induction false} NoMessagesYet(keys: seq<string>, messages: seq<Message>, key: string)
    requires |keys| == |messages| && key !in keys
    ensures MessagesOf(keys, messages, key) == []
  {
    if keys != [] {
      NoMessagesYet(keys[..|keys| - 1], messages[..|keys| - 1], key);
    }
  }

  lemma OneMoreMessage(keys: seq<string>, messages: seq<Message>, n: nat, key: string)
    requires |keys| == |messages| && n < |keys|
    ensures MessagesOf(keys[..n + 1], messages[..n + 1], key)
            == if keys[n] == key then MessagesOf(keys[..n], messages[..n], key) + [messages[n]]
               else MessagesOf(keys[..n], messages[..n], key)
    ensures Openings(keys[..n + 1])
            == if n == 0 || keys[n] != keys[n - 1] then Openings(keys[..n]) + [keys[n]] else Openings(keys[..n])
  {
    var ks, ms := keys[..n + 1], messages[..n + 1];
    assert ks[..n] == keys[..n] && ms[..n] == messages[..n] && |ks| == n + 1;
  }

  // ---------------------------------------------------------------- on files

  /** A bucket, and how its files were numbered when it was last written to. */
  datatype Bucket = Bucket(key: string, numbers: Numbering, alone: bool)

  /** What set_sizepolicy fixed. */
  datatype Limits = Limits(size: nat, count: nat, append: bool)

  ghost function LimitsOf(r: Rolling): Limits
    reads r
  {
    Limits(r.maxfilesize, r.maxfilecount, r.rollingappend)
  }

  /** The files of the bucket hold what is to be kept of the stream. */
  ghost predicate BucketKept(fs: Files, base: string, limits: Limits, stream: seq<Message>, b: Bucket) {
    && b.numbers.max == limits.count && b.numbers.append == limits.append
    && Counted(b.numbers, |Cut(stream, limits.size)| - 1)
    && WhatIsKept(fs, base, Cut(stream, limits.size), b.numbers, b.alone)
  }

  /** The files of each bucket hold what is to be kept of exactly the messages written under its key. */
  ghost predicate AllKept(r: Rolling, fs: Files, limits: Limits, keys: seq<string>, messages: seq<Message>,
                          buckets: seq<Bucket>)
    requires |keys| == |messages|
  {
    forall k :: 0 <= k < |buckets| ==>
                  BucketKept(fs, r.BaseName(buckets[k].key), limits, MessagesOf(keys, messages, buckets[k].key), buckets[k])
  }

  predicate AreBuckets(keys: seq<string>, buckets: seq<Bucket>) {
    |buckets| == |keys| && forall k :: 0 <= k < |buckets| ==> buckets[k].key == keys[k]
  }

  /** The bucket of the last key is open, with the messages written under it. */
  ghost predicate IsOpen(r: Rolling, keys: seq<string>, messages: seq<Message>)
    requires |keys| == |messages|
    reads r
  {
    if keys == [] then r.loggingfile.None?
    else
      var key := keys[|keys| - 1];
      r.loggingfile.Some? && r.loggingfile.value == r.BaseName(key) && r.stream == MessagesOf(keys, messages, key)
  }

  /** Writes to one bucket leave what is kept of another as it is. */
  lemma KeptElsewhere(before: Files, after: Files, base: string, other: string,
                      gens: seq<seq<Message>>, p: Numbering, alone: bool)
    requires WhatIsKept(before, base, gens, p, alone) && OthersKept(before, after, other) && base != other
    ensures WhatIsKept(after, base, gens, p, alone)
  {
    forall n: Name | n.base == base
      ensures SameFile(before, after, n)
    {
    }
    forall d | 0 <= d < KeptCount(p, |gens| - 1)
      ensures Kept(after, base, gens, p, d)
    {
      assert Kept(before, base, gens, p, d);
    }
    assert SameFile(before, after, Name(base, 0));
    SameContents(before, after, base);
  }

  lemma SameContents(before: Files, after: Files, base: string)
    requires forall n: Name :: n.base == base ==> SameFile(before, after, n)
    ensures FileNames(before, base) == FileNames(after, base) && Contents(before, base) == Contents(after, base)
  {
    forall n: Name | n.base == base
      ensures n in before <==> n in after
      ensures n in before ==> before[n] == after[n]
    {
      assert SameFile(before, after, n);
    }
  }

  lemma NamesDiffer(r: Rolling, a: string, b: string)
    requires 0 < |a| == |b| && a != b
    ensures r.BaseName(a) != r.BaseName(b)
  {
    var suffix := if r.datesuffix.Some? then r.datesuffix.value else "";
    assert (a + suffix)[..|a|] == a && (b + suffix)[..|a|] == b;
  }

  /** The file's name tells exactly whether the key is the one it was opened under. */
  lemma SwitchIsNewKey(r: Rolling, old_key: string, key: string)
    requires r.loggingfile.Some? && r.loggingfile.value == r.BaseName(old_key) && 0 < |key| == |old_key|
    ensures r.Switches(key) <==> key != old_key
  {
    var suffix := if r.datesuffix.Some? then r.datesuffix.value else "";
    assert (key + suffix)[..|key|] == key && (old_key + suffix)[..|key|] == old_key;
  }

  /** The buckets whose key is not the next one are kept as they are. */
  lemma StillKept(r: Rolling, before: Files, after: Files, limits: Limits, keys: seq<string>, messages: seq<Message>, n: nat,
                  buckets: seq<Bucket>)
    requires |keys| == |messages| && n < |keys| && OneWidth(keys)
    requires AllKept(r, before, limits, keys[..n], messages[..n], buckets) && OthersKept(before, after, r.BaseName(keys[n]))
    requires forall k :: 0 <= k < |buckets| ==> buckets[k].key in keys && buckets[k].key != keys[n]
    ensures AllKept(r, after, limits, keys[..n + 1], messages[..n + 1], buckets)
  {
    forall k | 0 <= k < |buckets|
      ensures BucketKept(after, r.BaseName(buckets[k].key), limits,
                         MessagesOf(keys[..n + 1], messages[..n + 1], buckets[k].key), buckets[k])
    {
      var b, stream := buckets[k], MessagesOf(keys[..n], messages[..n], buckets[k].key);
      OneMoreMessage(keys, messages, n, b.key);
      NamesDiffer(r, b.key, keys[n]);
      assert BucketKept(before, r.BaseName(b.key), limits, stream, b);
      KeptElsewhere(before, after, r.BaseName(b.key), r.BaseName(keys[n]), Cut(stream, limits.size), b.numbers, b.alone);
    }
  }

  /** The state of a run: which buckets there are, which is open, and what all their files hold. */
  ghost predicate Running(r: Rolling, keys: seq<string>, messages: seq<Message>, buckets: seq<Bucket>)
    requires |keys| == |messages|
    reads r
  {
    && r.Valid() && AreBuckets(Openings(keys), buckets) && IsOpen(r, keys, messages)
    && AllKept(r, r.fs, LimitsOf(r), keys, messages, buckets)
  }

  /** The bucket's files are called by its key, followed by the suffix if there is one. */
  ghost predicate NamedFiles(r: Rolling, keys: seq<string>, messages: seq<Message>, b: Bucket)
    requires |keys| == |messages|
    reads r
  {
    var base := if r.datesuffix.Some? then b.key + r.datesuffix.value else b.key;
    b.key in keys && BucketKept(r.fs, base, LimitsOf(r), MessagesOf(keys, messages, b.key), b)
  }

  lemma FilesAreNamed(r: Rolling, keys: seq<string>, messages: seq<Message>, buckets: seq<Bucket>)
    requires |keys| == |messages| && Running(r, keys, messages, buckets) && OneWidth(keys) && SameKeys(keys, Openings(keys))
    ensures forall k :: 0 <= k < |buckets| ==> NamedFiles(r, keys, messages, buckets[k])
  {
    forall k | 0 <= k < |buckets|
      ensures NamedFiles(r, keys, messages, buckets[k])
    {
      var b := buckets[k];
      assert Openings(keys)[k] in Openings(keys);
      assert BucketKept(r.fs, r.BaseName(b.key), LimitsOf(r), MessagesOf(keys, messages, b.key), b);
    }
  }

  ghost predicate InBuckets(r: Rolling, buckets: seq<Bucket>, base: string) {
    exists k :: 0 <= k < |buckets| && r.BaseName(buckets[k].key) == base
  }

  /** No files but the buckets' differ from those there were at the start. */
  ghost predicate Untouched(r: Rolling, start: Files, fs: Files, buckets: seq<Bucket>) {
    forall n: Name :: !InBuckets(r, buckets, n.base) ==> SameFile(start, fs, n)
  }

  ghost predicate AloneIfNew(r: Rolling, start: Files, buckets: seq<Bucket>) {
    forall k :: 0 <= k < |buckets| && Absent(start, r.BaseName(buckets[k].key)) ==> buckets[k].alone
  }

  /** A bucket that had no files at the start has none but the run's. */
  ghost predicate Tidy(r: Rolling, start: Files, buckets: seq<Bucket>)
    reads r
  {
    && Untouched(r, start, r.fs, buckets) && AloneIfNew(r, start, buckets)
    && (buckets != [] ==> buckets[|buckets| - 1].alone == r.alone)
  }

  lemma StillAbsent(r: Rolling, start: Files, fs: Files, buckets: seq<Bucket>, base: string)
    requires Untouched(r, start, fs, buckets) && !InBuckets(r, buckets, base) && Absent(start, base)
    ensures Absent(fs, base)
  {
    forall n: Name | n in fs
      ensures n.base != base
    {
      assert n.base == base ==> SameFile(start, fs, n);
    }
  }

  /** The buckets in terms of the keys: the open one, if it is the next key's, is the last. */
  lemma BucketKeys(keys: seq<string>, messages: seq<Message>, n: nat, buckets: seq<Bucket>)
    requires |keys| == |messages| && n < |keys| && NeverBack(keys) && AreBuckets(Openings(keys[..n]), buckets)
    ensures forall k :: 0 <= k < |buckets| ==> buckets[k].key in keys
    ensures forall k :: 0 <= k < |Others(keys, n, buckets)| ==> Others(keys, n, buckets)[k].key != keys[n]
    ensures n > 0 && keys[n] == keys[n - 1] ==> buckets != [] && buckets[|buckets| - 1].key == keys[n]
  {
    NextOpenings(keys, messages, n);
    OthersMatch(keys, n, Openings(keys[..n]), buckets);
    forall k | 0 <= k < |buckets|
      ensures buckets[k].key in keys
    {
      assert Openings(keys[..n])[k] in Openings(keys[..n]);
    }
  }

  lemma NextUntouched(r: Rolling, start: Files, before: Files, after: Files, keys: seq<string>, n: nat,
                      buckets: seq<Bucket>, b: Bucket)
    requires n < |keys| && b.key == keys[n] && Untouched(r, start, before, buckets)
    requires n > 0 && keys[n] == keys[n - 1] ==> buckets != [] && buckets[|buckets| - 1].key == keys[n]
    requires OthersKept(before, after, r.BaseName(keys[n]))
    ensures Untouched(r, start, after, Others(keys, n, buckets) + [b])
  {
    var more := Others(keys, n, buckets) + [b];
    forall x: Name | !InBuckets(r, more, x.base)
      ensures SameFile(start, after, x)
    {
      assert more[|more| - 1] == b;
      forall k | 0 <= k < |buckets|
        ensures r.BaseName(buckets[k].key) != x.base
      {
        if k < |more| - 1 {
          assert more[k] == buckets[k];
        }
      }
      assert SameFile(start, before, x) && SameFile(before, after, x);
    }
  }

  lemma NextAlone(r: Rolling, start: Files, before: Files, keys: seq<string>, n: nat, buckets: seq<Bucket>, b: Bucket)
    requires n < |keys| && b.key == keys[n] && OneWidth(keys) && forall k :: 0 <= k < |buckets| ==> buckets[k].key in keys
    requires forall k :: 0 <= k < |Others(keys, n, buckets)| ==> Others(keys, n, buckets)[k].key != keys[n]
    requires Untouched(r, start, before, buckets) && AloneIfNew(r, start, buckets)
    requires if n > 0 && keys[n] == keys[n - 1] then buckets != [] && buckets[|buckets| - 1].key == keys[n]
                                                     && b.alone == buckets[|buckets| - 1].alone
             else b.alone == Absent(before, r.BaseName(keys[n]))
    ensures AloneIfNew(r, start, Others(keys, n, buckets) + [b])
  {
    var older, base := Others(keys, n, buckets), r.BaseName(keys[n]);
    if Absent(start, base) && older == buckets {
      forall k | 0 <= k < |buckets|
        ensures r.BaseName(buckets[k].key) != base
      {
        NamesDiffer(r, buckets[k].key, keys[n]);
      }
      StillAbsent(r, start, before, buckets, base);
    }
  }

  lemma LastOf(was: seq<string>)
    requires was != [] && Distinct(was)
    ensures was == was[..|was| - 1] + [was[|was| - 1]] && was[|was| - 1] !in was[..|was| - 1]
  {
  }

  /** What the next key does to the openings. */
  lemma NextOpenings(keys: seq<string>, messages: seq<Message>, n: nat)
    requires |keys| == |messages| && n < |keys| && NeverBack(keys)
    ensures var was, now := Openings(keys[..n]), Openings(keys[..n + 1]);
            && (n > 0 ==> was != [] && was[|was| - 1] == keys[n - 1])
            && now == Others(keys, n, was) + [keys[n]]
            && keys[n] !in Others(keys, n, was) && forall key :: key in was ==> key in keys
  {
    NeverBackBefore(keys, n);
    OpeningsAre(keys[..n]);
    OneMoreMessage(keys, messages, n, keys[n]);
    var was := Openings(keys[..n]);
    if n > 0 {
      assert StaysOrNew(keys, n);
      LastOf(was);
    }
  }

  /** All but the one of the n-th key, when it is already open. */
  function Others<T>(keys: seq<string>, n: nat, was: seq<T>): (r: seq<T>)
    requires n < |keys|
  {
    if n > 0 && keys[n] == keys[n - 1] && was != [] then was[..|was| - 1] else was
  }

  /** And to the messages of its bucket. */
  lemma NextStream(keys: seq<string>, messages: seq<Message>, n: nat)
    requires |keys| == |messages| && n < |keys| && NeverBack(keys)
    ensures MessagesOf(keys[..n + 1], messages[..n + 1], keys[n])
            == if n > 0 && keys[n] == keys[n - 1] then MessagesOf(keys[..n], messages[..n], keys[n]) + [messages[n]]
               else [messages[n]]
  {
    OneMoreMessage(keys, messages, n, keys[n]);
    if n == 0 {
      NoMessagesYet(keys[..n], messages[..n], keys[n]);
    } else if keys[n] != keys[n - 1] {
      assert StaysOrNew(keys, n);
      NoMessagesYet(keys[..n], messages[..n], keys[n]);
    }
  }

  /** The open bucket is kept under the numbers it has now. */
  lemma CurrentKept(r: Rolling, key: string)
    requires r.Valid() && r.loggingfile.Some?
    ensures BucketKept(r.fs, r.loggingfile.value, LimitsOf(r), r.stream, Bucket(key, r.Numbers(), r.alone))
  {
    r.OnDisk();
  }

  lemma KeptSnoc(r: Rolling, fs: Files, limits: Limits, keys: seq<string>, messages: seq<Message>,
                 buckets: seq<Bucket>, b: Bucket)
    requires |keys| == |messages| && AllKept(r, fs, limits, keys, messages, buckets)
    requires BucketKept(fs, r.BaseName(b.key), limits, MessagesOf(keys, messages, b.key), b)
    ensures AllKept(r, fs, limits, keys, messages, buckets + [b])
  {
  }

  lemma OthersMatch(keys: seq<string>, n: nat, was: seq<string>, buckets: seq<Bucket>)
    requires n < |keys| && AreBuckets(was, buckets) && keys[n] !in Others(keys, n, was)
    requires forall key :: key in was ==> key in keys
    ensures AreBuckets(Others(keys, n, was), Others(keys, n, buckets))
    ensures forall k :: 0 <= k < |Others(keys, n, buckets)| ==>
                          Others(keys, n, buckets)[k].key in keys && Others(keys, n, buckets)[k].key != keys[n]
  {
    var older := Others(keys, n, buckets);
    forall k | 0 <= k < |older|
      ensures older[k].key in keys && older[k].key != keys[n]
    {
      assert Others(keys, n, was)[k] == older[k].key && was[k] in was;
    }
  }

  lemma BucketsSnoc(was: seq<string>, older: seq<Bucket>, b: Bucket)
    requires AreBuckets(was, older)
    ensures AreBuckets(was + [b.key], older + [b])
  {
  }

  /** The files of the buckets after one more write. */
  lemma NextKept(r: Rolling, before: Files, keys: seq<string>, messages: seq<Message>, n: nat, older: seq<Bucket>)
    requires |keys| == |messages| && n < |keys| && OneWidth(keys)
    requires AllKept(r, before, LimitsOf(r), keys[..n], messages[..n], older)
    requires forall k :: 0 <= k < |older| ==> older[k].key in keys && older[k].key != keys[n]
    requires r.Valid() && r.loggingfile.Some? && r.loggingfile.value == r.BaseName(keys[n])
    requires r.stream == MessagesOf(keys[..n + 1], messages[..n + 1], keys[n])
    requires OthersKept(before, r.fs, r.BaseName(keys[n]))
    ensures AllKept(r, r.fs, LimitsOf(r), keys[..n + 1], messages[..n + 1], older + [Bucket(keys[n], r.Numbers(), r.alone)])
  {
    StillKept(r, before, r.fs, LimitsOf(r), keys, messages, n, older);
    CurrentKept(r, keys[n]);
    KeptSnoc(r, r.fs, LimitsOf(r), keys[..n + 1], messages[..n + 1], older, Bucket(keys[n], r.Numbers(), r.alone));
  }

  lemma OthersAreKept(r: Rolling, fs: Files, limits: Limits, keys: seq<string>, messages: seq<Message>, n: nat,
                      buckets: seq<Bucket>)
    requires |keys| == |messages| && n < |keys| && AllKept(r, fs, limits, keys[..n], messages[..n], buckets)
    ensures AllKept(r, fs, limits, keys[..n], messages[..n], Others(keys, n, buckets))
  {
  }

  /** The bookkeeping of one write. */
  lemma NextBuckets(r: Rolling, before: Files, keys: seq<string>, messages: seq<Message>, n: nat, buckets: seq<Bucket>)
    requires |keys| == |messages| && n < |keys| && NeverBack(keys) && OneWidth(keys)
    requires AreBuckets(Openings(keys[..n]), buckets)
    requires AllKept(r, before, LimitsOf(r), keys[..n], messages[..n], buckets)
    requires r.Valid() && r.loggingfile.Some? && r.loggingfile.value == r.BaseName(keys[n])
    requires r.stream == MessagesOf(keys[..n + 1], messages[..n + 1], keys[n])
    requires OthersKept(before, r.fs, r.BaseName(keys[n]))
    ensures var more := Others(keys, n, buckets) + [Bucket(keys[n], r.Numbers(), r.alone)];
            && AreBuckets(Openings(keys[..n + 1]), more)
            && AllKept(r, r.fs, LimitsOf(r), keys[..n + 1], messages[..n + 1], more)
  {
    NextOpenings(keys, messages, n);
    var was, older := Openings(keys[..n]), Others(keys, n, buckets);
    OthersMatch(keys, n, was, buckets);
    OthersAreKept(r, before, LimitsOf(r), keys, messages, n, buckets);
    NextKept(r, before, keys, messages, n, older);
    BucketsSnoc(Others(keys, n, was), older, Bucket(keys[n], r.Numbers(), r.alone));
  }

  lemma NowOpen(r: Rolling, keys: seq<string>, messages: seq<Message>, n: nat)
    requires |keys| == |messages| && n < |keys|
    requires r.loggingfile.Some? && r.loggingfile.value == r.BaseName(keys[n])
    requires r.stream == MessagesOf(keys[..n + 1], messages[..n + 1], keys[n])
    ensures IsOpen(r, keys[..n + 1], messages[..n + 1])
  {
  }

  lemma NextTidy(r: Rolling, start: Files, before: Files, keys: seq<string>, messages: seq<Message>, n: nat,
                 buckets: seq<Bucket>)
    requires |keys| == |messages| && n < |keys| && NeverBack(keys) && OneWidth(keys)
    requires AreBuckets(Openings(keys[..n]), buckets)
    requires Untouched(r, start, before, buckets) && AloneIfNew(r, start, buckets)
    requires OthersKept(before, r.fs, r.BaseName(keys[n]))
    requires if n > 0 && keys[n] == keys[n - 1] then buckets != [] ==> r.alone == buckets[|buckets| - 1].alone
             else r.alone == Absent(before, r.BaseName(keys[n]))
    ensures Tidy(r, start, Others(keys, n, buckets) + [Bucket(keys[n], r.Numbers(), r.alone)])
  {
    var b := Bucket(keys[n], r.Numbers(), r.alone);
    BucketKeys(keys, messages, n, buckets);
    NextUntouched(r, start, before, r.fs, keys, n, buckets, b);
    NextAlone(r, start, before, keys, n, buckets, b);
  }

  /** The state of the run after the next write. */
  lemma AfterWrite(r: Rolling, start: Files, before: Files, keys: seq<string>, messages: seq<Message>, n: nat,
                   buckets: seq<Bucket>)
    requires |keys| == |messages| && n < |keys| && NeverBack(keys) && OneWidth(keys)
    requires AreBuckets(Openings(keys[..n]), buckets)
    requires AllKept(r, before, LimitsOf(r), keys[..n], messages[..n], buckets)
    requires Untouched(r, start, before, buckets) && AloneIfNew(r, start, buckets)
    requires r.Valid() && r.loggingfile.Some? && r.loggingfile.value == r.BaseName(keys[n])
    requires r.stream == MessagesOf(keys[..n + 1], messages[..n + 1], keys[n])
    requires OthersKept(before, r.fs, r.BaseName(keys[n]))
    requires if n > 0 && keys[n] == keys[n - 1] then buckets != [] ==> r.alone == buckets[|buckets| - 1].alone
             else r.alone == Absent(before, r.BaseName(keys[n]))
    ensures var more := Others(keys, n, buckets) + [Bucket(keys[n], r.Numbers(), r.alone)];
            Running(r, keys[..n + 1], messages[..n + 1], more) && Tidy(r, start, more)
  {
    NextBuckets(r, before, keys, messages, n, buckets);
    NowOpen(r, keys, messages, n);
    NextTidy(r, start, before, keys, messages, n, buckets);
  }

  /** Whether the next write switches, and what stream it leaves. */
  lemma SwitchAndStream(r: Rolling, keys: seq<string>, messages: seq<Message>, n: nat)
    requires |keys| == |messages| && n < |keys| && NeverBack(keys) && OneWidth(keys) && IsOpen(r, keys[..n], messages[..n])
    ensures r.Switches(keys[n]) <==> n == 0 || keys[n] != keys[n - 1]
    ensures MessagesOf(keys[..n + 1], messages[..n + 1], keys[n])
            == if r.Switches(keys[n]) then [messages[n]] else r.stream + [messages[n]]
    ensures !r.Switches(keys[n]) ==> r.loggingfile.value == r.BaseName(keys[n])
  {
    NextStream(keys, messages, n);
    if n > 0 {
      assert keys[..n][n - 1] == keys[n - 1];
      SwitchIsNewKey(r, keys[n - 1], keys[n]);
    }
  }

  /** rollingfile_write under a key. */
  method WriteKey(r: Rolling, key: string, message: Message)
    requires r.Valid() && |message| < 0x1_0000_0000
    modifies r
    ensures r.Valid() && LimitsOf(r) == old(LimitsOf(r)) && r.loggingfile.Some?
    ensures r.loggingfile.value == if old(r.Switches(key)) then r.BaseName(key) else old(r.loggingfile).value
    ensures r.stream == if old(r.Switches(key)) then [message] else old(r.stream) + [message]
    ensures r.alone == if old(r.Switches(key)) then Absent(old(r.fs), r.BaseName(key)) else old(r.alone)
    ensures OthersKept(old(r.fs), r.fs, r.loggingfile.value)
  {
    r.RollingWrite(key, message);
  }

  /** rollingfile_write of the next message of a run; a bucket is opened exactly when its key is a new one. */
  method WriteNext(r: Rolling, key: string, message: Message,
                   ghost keys: seq<string>, ghost messages: seq<Message>, ghost n: nat,
                   ghost start: Files, ghost buckets: seq<Bucket>)
    returns (ghost more: seq<Bucket>)
    requires |keys| == |messages| && n < |keys| && NeverBack(keys) && OneWidth(keys)
    requires key == keys[n] && message == messages[n] && |message| < 0x1_0000_0000
    requires Running(r, keys[..n], messages[..n], buckets) && Tidy(r, start, buckets)
    modifies r
    ensures Running(r, keys[..n + 1], messages[..n + 1], more) && Tidy(r, start, more)
    ensures LimitsOf(r) == old(LimitsOf(r))
    ensures old(r.Switches(key)) <==> n == 0 || key != keys[n - 1]
  {
    ghost var before := r.fs;
    SwitchAndStream(r, keys, messages, n);
    WriteKey(r, key, message);
    AfterWrite(r, start, before, keys, messages, n, buckets);
    more := Others(keys, n, buckets) + [Bucket(key, r.Numbers(), r.alone)];
  }
}

/** Runs in time order, under keys printed from the clock. */
module RollingRun {
  import opened Generations
  import opened CivilTime
  import opened RollingKeys
  import opened RollingFile
  import opened KeyedRun

  /** A message logged in second sec, whose date is loc. */
  datatype Event = Event(loc: Tm, sec: int, message: Message)

  predicate Writable(e: Event) {
    Printable(e.loc, e.sec) && |e.message| < 0x1_0000_0000
  }

  predicate InOrder(run: seq<Event>) {
    (forall i :: 0 <= i < |run| ==> Writable(run[i])) && forall i, j :: 0 <= i < j < |run| ==> run[i].sec <= run[j].sec
  }

  predicate IsKey(p: Policy, e: Event, key: string) {
    Printable(e.loc, e.sec) && key == Key(p, e.loc)
  }

  /** The key printed for an event. */
  function KeyOf(p: Policy, e: Event): (key: string)
    requires Writable(e)
    ensures IsKey(p, e, key)
  {
    Key(p, e.loc)
  }

  /** The keys the policy prints for a run. */
  function Keys(p: Policy, run: seq<Event>): (keys: seq<string>)
    requires InOrder(run)
    ensures |keys| == |run| && forall i :: 0 <= i < |run| ==> IsKey(p, run[i], keys[i])
  {
    seq(|run|, i requires 0 <= i < |run| => KeyOf(p, run[i]))
  }

  function Messages(run: seq<Event>): (messages: seq<Message>)
    ensures |messages| == |run| && forall i :: 0 <= i < |run| ==> messages[i] == run[i].message
  {
    seq(|run|, i requires 0 <= i < |run| => run[i].message)
  }

  /** A key that comes up again in time order has not been left in between. */
  lemma KeyStays(p: Policy, a: Event, b: Event, c: Event, key: string, mid: string)
    requires IsKey(p, a, key) && IsKey(p, b, mid) && IsKey(p, c, key) && a.sec <= b.sec <= c.sec
    ensures mid == key
  {
    NeverReturns(p, a.loc, a.sec, b.loc, b.sec, c.loc, c.sec);
  }

  lemma OneLength(p: Policy, a: Event, b: Event, k: string, l: string)
    requires IsKey(p, a, k) && IsKey(p, b, l)
    ensures 0 < |k| == |l|
  {
    KeyWidth(p, a.loc, a.sec, b.loc, b.sec);
  }

  lemma KeyStaysOrNew(p: Policy, run: seq<Event>, keys: seq<string>, n: nat)
    requires |keys| == |run| && forall i :: 0 <= i < |run| ==> IsKey(p, run[i], keys[i])
    requires 0 < n < |run| && forall i :: 0 <= i < n ==> run[i].sec <= run[n - 1].sec <= run[n].sec
    ensures StaysOrNew(keys, n)
  {
    forall i | 0 <= i < n && keys[i] == keys[n]
      ensures keys[n - 1] == keys[n]
    {
      KeyStays(p, run[i], run[n - 1], run[n], keys[i], keys[n - 1]);
    }
  }

  lemma KeysOneWidth(p: Policy, run: seq<Event>, keys: seq<string>)
    requires |keys| == |run| && forall i :: 0 <= i < |run| ==> IsKey(p, run[i], keys[i])
    ensures OneWidth(keys)
  {
    forall i, j | 0 <= i < |keys| && 0 <= j < |keys|
      ensures 0 < |keys[i]| == |keys[j]|
    {
      OneLength(p, run[i], run[j], keys[i], keys[j]);
    }
  }

  /** Keys printed in time order never come back to one left, and are of one width. */
  lemma TimeKeys(p: Policy, run: seq<Event>)
    requires InOrder(run)
    ensures NeverBack(Keys(p, run)) && OneWidth(Keys(p, run))
  {
    var keys := Keys(p, run);
    KeysOneWidth(p, run, keys);
    forall n | 0 < n < |keys|
      ensures StaysOrNew(keys, n)
    {
      KeyStaysOrNew(p, run, keys, n);
    }
  }

  lemma OpenedOnce(p: Policy, run: seq<Event>)
    requires InOrder(run)
    ensures Distinct(Openings(Keys(p, run))) && SameKeys(Keys(p, run), Openings(Keys(p, run)))
  {
    TimeKeys(p, run);
    OpeningsAre(Keys(p, run));
  }

  /** One message: its key is printed and passed on. */
  method LogNext(r: Rolling, p: Policy, run: seq<Event>, n: nat,
                 ghost keys: seq<string>, ghost messages: seq<Message>, ghost start: Files, ghost buckets: seq<Bucket>)
    returns (ghost more: seq<Bucket>)
    requires InOrder(run) && n < |run| && keys == Keys(p, run) && messages == Messages(run) && NeverBack(keys) && OneWidth(keys)
    requires Running(r, keys[..n], messages[..n], buckets) && Tidy(r, start, buckets)
    modifies r
    ensures Running(r, keys[..n + 1], messages[..n + 1], more) && Tidy(r, start, more)
    ensures LimitsOf(r) == old(LimitsOf(r))
  {
    var key := KeyOf(p, run[n]);
    assert IsKey(p, run[n], keys[n]);
    more := WriteNext(r, key, run[n].message, keys, messages, n, start, buckets);
  }

  /**
   * A run in time order from a new logger, over any files: every span of time of the policy
   * is opened as a bucket once, when its first message comes, and in the end the files of
   * every bucket hold what the limits keep of exactly the messages of its span, and nothing
   * else if there were none at the start; no other files are touched.
   */
  method LogInOrder(r: Rolling, p: Policy, run: seq<Event>) returns (ghost buckets: seq<Bucket>)
    requires r.Valid() && r.loggingfile.None? && InOrder(run)
    modifies r
    ensures Running(r, Keys(p, run), Messages(run), buckets) && LimitsOf(r) == old(LimitsOf(r))
    ensures Tidy(r, old(r.fs), buckets)
    ensures forall k :: 0 <= k < |buckets| ==> NamedFiles(r, Keys(p, run), Messages(run), buckets[k])
    ensures Distinct(Openings(Keys(p, run))) && SameKeys(Keys(p, run), Openings(Keys(p, run)))
  {
    ghost var keys, messages, start := Keys(p, run), Messages(run), r.fs;
    TimeKeys(p, run);
    buckets := [];
    var n := 0;
    while n < |run|
      invariant 0 <= n <= |run|
      invariant Running(r, keys[..n], messages[..n], buckets) && Tidy(r, start, buckets)
      invariant LimitsOf(r) == old(LimitsOf(r))
    {
      buckets := LogNext(r, p, run, n, keys, messages, start, buckets);
      n := n + 1;
    }
    OpenedOnce(p, run);
    assert keys[..n] == keys && messages[..n] == messages;
    FilesAreNamed(r, keys, messages, buckets);
  }
}
