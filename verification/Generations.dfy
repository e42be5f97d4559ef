/**
 * How a stream of messages is cut into log files by size: a message goes to the current
 * file, unless that file has reached the limit, in which case it opens the next one.
 */
module Generations {
  import opened LittleEndian

  type Message = seq<Byte>

  function Size(g: seq<Message>): nat {
    if g == [] then 0 else Size(g[..|g| - 1]) + |g[|g| - 1]|
  }

  function Bytes(g: seq<Message>): seq<Byte> {
    if g == [] then [] else Bytes(g[..|g| - 1]) + g[|g| - 1]
  }

  function Flatten(gens: seq<seq<Message>>): seq<Message> {
    if gens == [] then [] else Flatten(gens[..|gens| - 1]) + gens[|gens| - 1]
  }

  /** The generations after one more message. */
  function Logged(gens: seq<seq<Message>>, m: Message, limit: nat): (r: seq<seq<Message>>)
    requires gens != []
    ensures r != []
  {
    var last := |gens| - 1;
    if Size(gens[last]) >= limit then gens + [[m]] else gens[..last] + [gens[last] + [m]]
  }

  function Cut(stream: seq<Message>, limit: nat): (gens: seq<seq<Message>>)
    ensures gens != []
  {
    if stream == [] then [[]] else Logged(Cut(stream[..|stream| - 1], limit), stream[|stream| - 1], limit)
  }

  lemma CutSnoc(stream: seq<Message>, m: Message, limit: nat)
    ensures Cut(stream + [m], limit) == Logged(Cut(stream, limit), m, limit)
  {
    assert (stream + [m])[..|stream|] == stream;
  }

  /** The files ready for the next message: a full one is followed by an empty one. */
  function Ready(gens: seq<seq<Message>>, limit: nat): (r: seq<seq<Message>>)
    requires gens != []
    ensures r != []
  {
    if Size(gens[|gens| - 1]) >= limit then gens + [[]] else gens
  }

  /** Logging is making ready, then adding to the last file. */
  lemma LoggedInTwo(gens: seq<seq<Message>>, m: Message, limit: nat)
    requires gens != []
    ensures var r := Ready(gens, limit); r[..|r| - 1] + [r[|r| - 1] + [m]] == Logged(gens, m, limit)
  {
    var more := gens + [[]];
    assert more[..|gens|] == gens && more[|gens|] + [m] == [m];
  }

  lemma {:induction false} SizeIsLength(g: seq<Message>)
    ensures |Bytes(g)| == Size(g)
  {
    if g != [] {
      SizeIsLength(g[..|g| - 1]);
    }
  }

  lemma Snoc(g: seq<Message>, m: Message)
    ensures Size(g + [m]) == Size(g) + |m| && Bytes(g + [m]) == Bytes(g) + m
  {
    assert (g + [m])[..|g|] == g;
  }

  lemma FlattenSnoc(gens: seq<seq<Message>>, g: seq<Message>)
    ensures Flatten(gens + [g]) == Flatten(gens) + g
  {
    assert (gens + [g])[..|gens|] == gens;
  }

  lemma {:induction false} FlattenConcat(a: seq<seq<Message>>, b: seq<seq<Message>>)
    ensures Flatten(a + b) == Flatten(a) + Flatten(b)
  {
    if b == [] {
      assert a + b == a;
    } else {
      var last := |b| - 1;
      FlattenConcat(a, b[..last]);
      assert a + b == (a + b[..last]) + [b[last]] && b == b[..last] + [b[last]];
      FlattenSnoc(a + b[..last], b[last]);
      assert Flatten(a) + Flatten(b[..last]) + b[last] == Flatten(a) + (Flatten(b[..last]) + b[last]);
    }
  }

  /** A closed file has reached the limit, and was below it before its last message. */
  ghost predicate Closed(g: seq<Message>, limit: nat) {
    g != [] && Size(g) >= limit && Size(g[..|g| - 1]) < limit
  }

  /** gens cuts stream in order; all but the last are closed; the last is not past the limit but for its last message. */
  ghost predicate IsCut(gens: seq<seq<Message>>, stream: seq<Message>, limit: nat) {
    && gens != [] && Flatten(gens) == stream
    && (forall j :: 0 <= j < |gens| - 1 ==> Closed(gens[j], limit))
    && (var g := gens[|gens| - 1]; (g == [] && |gens| == 1) || (g != [] && Size(g[..|g| - 1]) < limit))
  }

  lemma {:induction false} CutIsCut(stream: seq<Message>, limit: nat)
    requires limit > 0
    ensures IsCut(Cut(stream, limit), stream, limit)
  {
    if stream != [] {
      var most, m := stream[..|stream| - 1], stream[|stream| - 1];
      CutIsCut(most, limit);
      LoggedIsCut(Cut(most, limit), most, m, limit);
      assert most + [m] == stream;
    } else {
      EmptyCut(limit);
    }
  }

  lemma EmptyCut(limit: nat)
    requires limit > 0
    ensures IsCut([[]], [], limit)
  {
    FlattenSnoc([], []);
  }

  lemma LoggedIsCut(gens: seq<seq<Message>>, stream: seq<Message>, m: Message, limit: nat)
    requires limit > 0 && IsCut(gens, stream, limit)
    ensures IsCut(Logged(gens, m, limit), stream + [m], limit)
  {
    if Size(gens[|gens| - 1]) >= limit {
      OpenedIsCut(gens, stream, m, limit);
    } else {
      SplitAt(gens, |gens| - 1);
      AddedIsCut(gens[..|gens| - 1], gens[|gens| - 1], stream, m, limit);
    }
  }

  lemma OpenedIsCut(gens: seq<seq<Message>>, stream: seq<Message>, m: Message, limit: nat)
    requires limit > 0 && IsCut(gens, stream, limit) && Size(gens[|gens| - 1]) >= limit
    ensures IsCut(gens + [[m]], stream + [m], limit)
  {
    FlattenSnoc(gens, [m]);
    assert [m][..0] == [];
  }

  lemma AddedIsCut(closed: seq<seq<Message>>, g: seq<Message>, stream: seq<Message>, m: Message, limit: nat)
    requires limit > 0 && Size(g) < limit && Flatten(closed + [g]) == stream
    requires forall j :: 0 <= j < |closed| ==> Closed(closed[j], limit)
    ensures IsCut(closed + [g + [m]], stream + [m], limit)
  {
    FlattenSnoc(closed, g);
    FlattenSnoc(closed, g + [m]);
    assert Flatten(closed) + (g + [m]) == stream + [m];
    assert (g + [m])[..|g|] == g;
  }

  /** A cut of a longer stream ends in a file that holds the last message. */
  lemma LastFileEnds(gens: seq<seq<Message>>, stream: seq<Message>, limit: nat)
    requires IsCut(gens, stream, limit) && stream != []
    ensures var g := gens[|gens| - 1]; g != [] && g[|g| - 1] == stream[|stream| - 1]
  {
    var last := |gens| - 1;
    assert Flatten(gens) == Flatten(gens[..last]) + gens[last];
    assert |gens| == 1 ==> gens[..last] == [] && Flatten(gens[..last]) == [];
  }

  lemma NothingCut(gens: seq<seq<Message>>, limit: nat)
    requires limit > 0 && IsCut(gens, [], limit)
    ensures gens == [[]]
  {
    var g := gens[|gens| - 1];
    assert Flatten(gens) == Flatten(gens[..|gens| - 1]) + g;
    assert g == [];
  }

  /** There is only one way to cut a stream so. */
  lemma {:induction false} CutIsUnique(gens: seq<seq<Message>>, stream: seq<Message>, limit: nat)
    requires limit > 0 && IsCut(gens, stream, limit)
    ensures gens == Cut(stream, limit)
    decreases |stream|
  {
    var last := |gens| - 1;
    var g := gens[last];
    if stream == [] {
      NothingCut(gens, limit);
    } else {
      assert gens == gens[..last] + [g];
      LastFileEnds(gens, stream, limit);
      var m, g' := stream[|stream| - 1], g[..|g| - 1];
      assert g == g' + [m];
      var before := if g' == [] && last > 0 then gens[..last] else gens[..last] + [g'];
      if g' == [] && last > 0 {
        UncutFile(gens[..last], stream, m, limit);
      } else {
        UncutLast(gens[..last], g', stream, m, limit);
      }
      CutIsUnique(before, stream[..|stream| - 1], limit);
      assert stream == stream[..|stream| - 1] + [m];
    }
  }

  /** A last file of one message was opened by it. */
  lemma UncutFile(closed: seq<seq<Message>>, stream: seq<Message>, m: Message, limit: nat)
    requires limit > 0 && stream != [] && closed != [] && IsCut(closed + [[m]], stream, limit)
    ensures IsCut(closed, stream[..|stream| - 1], limit) && Logged(closed, m, limit) == closed + [[m]]
  {
    FlattenSnoc(closed, [m]);
    assert forall j :: 0 <= j < |closed| ==> (closed + [[m]])[j] == closed[j];
    assert Flatten(closed) == stream[..|stream| - 1];
  }

  /** Otherwise the last message went into an open file. */
  lemma UncutLast(closed: seq<seq<Message>>, g: seq<Message>, stream: seq<Message>, m: Message, limit: nat)
    requires limit > 0 && stream != [] && (g != [] || closed == []) && IsCut(closed + [g + [m]], stream, limit)
    ensures IsCut(closed + [g], stream[..|stream| - 1], limit) && Logged(closed + [g], m, limit) == closed + [g + [m]]
  {
    var gens, before := closed + [g + [m]], closed + [g];
    FlattenSnoc(closed, g + [m]);
    FlattenSnoc(closed, g);
    AllButLast(Flatten(closed), g, m, stream);
    assert forall j :: 0 <= j < |closed| ==> gens[j] == closed[j] == before[j];
    assert gens[|closed|] == g + [m] && (g + [m])[..|g|] == g;
    if g != [] {
      SizeGrows(g);
    }
  }

  lemma AllButLast(a: seq<Message>, g: seq<Message>, m: Message, stream: seq<Message>)
    requires a + (g + [m]) == stream
    ensures stream != [] && a + g == stream[..|stream| - 1]
  {
  }

  /** Two messages of the limit's size make two files. */
  lemma TwoFiles(m: Message, limit: nat)
    requires |m| >= limit > 0
    ensures Cut([m], limit) == [[m]] && Cut([m, m], limit) == [[m], [m]]
  {
    CutSnoc([], m, limit);
    CutSnoc([m], m, limit);
    assert [] + [m] == [m] && [m] + [m] == [m, m];
    var none: seq<Message> := [];
    assert Logged([none], m, limit) == [none + [m]];
    Snoc(none, m);
  }

  lemma SizeGrows(g: seq<Message>)
    requires g != []
    ensures Size(g[..|g| - 1]) <= Size(g)
  {
  }

  lemma SplitAt<T>(s: seq<T>, i: nat)
    requires i <= |s|
    ensures s[..i] + s[i..] == s && (i + 1 == |s| ==> s[i..] == [s[i]])
  {
  }

  lemma FlattenParts(gens: seq<seq<Message>>, a: seq<seq<Message>>, b: seq<seq<Message>>)
    requires a + b == gens
    ensures Flatten(gens) == Flatten(a) + Flatten(b)
  {
    FlattenConcat(a, b);
  }

  /** The generations from i on hold a suffix of the stream. */
  lemma WindowIsSuffix(gens: seq<seq<Message>>, stream: seq<Message>, i: nat)
    requires Flatten(gens) == stream && i <= |gens|
    ensures stream == Flatten(gens[..i]) + Flatten(gens[i..])
  {
    SplitAt(gens, i);
    FlattenParts(gens, gens[..i], gens[i..]);
  }
}
