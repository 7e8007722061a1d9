/**
 * What the arguments after the exchange and the routing key contribute to a
 * message: a header map merged from the Map arguments and a body concatenated
 * from the byte[], String and GString arguments, in argument order.
 */
module PublishArguments {
  import opened JavaValues

  /** The header map after `putAll` of every Map argument, left to right. */
  function MergedHeaders(parts: seq<Obj>): map<JString, Obj>
  {
    if parts == [] then map[]
    else
      var last := parts[|parts| - 1];
      var before := MergedHeaders(parts[..|parts| - 1]);
      if last.MapObj? then before + last.entries else before
  }

  /** The bytes one argument writes to the body; `encode` is `String.getBytes()`. */
  function Chunk(o: Obj, encode: JString -> seq<byte>): seq<byte> {
    match o
    case ByteArray(bytes, _) => bytes
    case StringObj(text) => encode(text)
    case GStringObj(text) => encode(text)
    case _ => []
  }

  /** Whether an argument writes to the body at all. */
  predicate IsChunk(o: Obj) {
    o.ByteArray? || o.StringObj? || o.GStringObj?
  }

  /** The body after every argument has been written to it, left to right. */
  function Body(parts: seq<Obj>, encode: JString -> seq<byte>): seq<byte>
  {
    if parts == [] then []
    else Body(parts[..|parts| - 1], encode) + Chunk(parts[|parts| - 1], encode)
  }

  /** Reference definition of the body: the chunks joined from the front. */
  function JoinChunks(parts: seq<Obj>, encode: JString -> seq<byte>): seq<byte>
  {
    if parts == [] then [] else Chunk(parts[0], encode) + JoinChunks(parts[1..], encode)
  }

  /** Merging is a homomorphism: the later arguments' entries override the earlier ones'. */
  lemma {:induction false} MergedHeadersAppend(s: seq<Obj>, t: seq<Obj>)
    ensures MergedHeaders(s + t) == MergedHeaders(s) + MergedHeaders(t)
    decreases |t|
  {
    if t == [] {
      assert s + t == s;
    } else {
      var t' := t[..|t| - 1];
      assert (s + t)[..|s + t| - 1] == s + t';
      assert (s + t)[|s + t| - 1] == t[|t| - 1];
      MergedHeadersAppend(s, t');
    }
  }

  /** Writing is a homomorphism: the body of two runs of arguments is their bodies in order. */
  lemma {:induction false} BodyAppend(s: seq<Obj>, t: seq<Obj>, encode: JString -> seq<byte>)
    ensures Body(s + t, encode) == Body(s, encode) + Body(t, encode)
    decreases |t|
  {
    if t == [] {
      assert s + t == s;
    } else {
      var t' := t[..|t| - 1];
      assert (s + t)[..|s + t| - 1] == s + t';
      assert (s + t)[|s + t| - 1] == t[|t| - 1];
      BodyAppend(s, t', encode);
    }
  }

  /** The body is the in-order concatenation of every argument's chunk. */
  lemma {:induction false} BodyIsJoinedChunks(parts: seq<Obj>, encode: JString -> seq<byte>)
    ensures Body(parts, encode) == JoinChunks(parts, encode)
    decreases |parts|
  {
    if parts != [] {
      var first, rest := [parts[0]], parts[1..];
      assert parts == first + rest;
      assert Body(first, encode) == Chunk(parts[0], encode) by {
        assert first[..0] == [];
      }
      calc {
        Body(parts, encode);
      == { BodyAppend(first, rest, encode); }
        Body(first, encode) + Body(rest, encode);
      == { BodyIsJoinedChunks(rest, encode); }
        Chunk(parts[0], encode) + JoinChunks(rest, encode);
      }
    }
  }

  /** A header key is present exactly when some Map argument carries it. */
  lemma {:induction false} MergedHeadersDomain(parts: seq<Obj>, k: JString)
    ensures k in MergedHeaders(parts) <==>
              exists i :: 0 <= i < |parts| && parts[i].MapObj? && k in parts[i].entries
    decreases |parts|
  {
    if parts != [] {
      var n := |parts| - 1;
      var front := parts[..n];
      MergedHeadersDomain(front, k);
      if exists i :: 0 <= i < |parts| && parts[i].MapObj? && k in parts[i].entries {
        var i :| 0 <= i < |parts| && parts[i].MapObj? && k in parts[i].entries;
        if i < n {
          assert front[i] == parts[i];
        }
      }
      if exists i :: 0 <= i < |front| && front[i].MapObj? && k in front[i].entries {
        var i :| 0 <= i < |front| && front[i].MapObj? && k in front[i].entries;
        assert parts[i] == front[i];
      }
    }
  }

  /**
   * Last write wins: a key's merged value is its value in the last Map
   * argument that carries it.
   */
  lemma {:induction false} MergedHeadersLastWins(parts: seq<Obj>, i: nat, k: JString)
    requires i < |parts| && parts[i].MapObj? && k in parts[i].entries
    requires forall j :: i < j < |parts| && parts[j].MapObj? ==> k !in parts[j].entries
    ensures k in MergedHeaders(parts) && MergedHeaders(parts)[k] == parts[i].entries[k]
    decreases |parts|
  {
    var n := |parts| - 1;
    var front := parts[..n];
    if i < n {
      forall j | i < j < |front| && front[j].MapObj?
        ensures k !in front[j].entries
      {
        assert front[j] == parts[j];
      }
      MergedHeadersLastWins(front, i, k);
    }
  }

  /** An ignored argument, wherever it stands, does not change the merged headers. */
  lemma IgnoredArgumentKeepsHeaders(parts: seq<Obj>, i: nat)
    requires i < |parts| && IsIgnored(parts[i])
    ensures MergedHeaders(parts[..i] + parts[i + 1..]) == MergedHeaders(parts)
  {
    var before, x, after := parts[..i], [parts[i]], parts[i + 1..];
    assert parts == (before + x) + after;
    assert x[..0] == [];
    var m := MergedHeaders(before);
    calc {
      MergedHeaders(parts);
    == { MergedHeadersAppend(before + x, after); }
      MergedHeaders(before + x) + MergedHeaders(after);
    == { MergedHeadersAppend(before, x); }
      m + MergedHeaders(x) + MergedHeaders(after);
    == { assert MergedHeaders(x) == map[]; assert m + map[] == m; }
      m + MergedHeaders(after);
    == { MergedHeadersAppend(before, after); }
      MergedHeaders(before + after);
    }
  }

  /** An ignored argument between two runs of arguments does not change the body. */
  lemma BodySkipsIgnored(before: seq<Obj>, o: Obj, after: seq<Obj>, encode: JString -> seq<byte>)
    requires IsIgnored(o)
    ensures Body(before + [o] + after, encode) == Body(before + after, encode)
  {
    assert Body([o], encode) == [] by {
      assert [o][..0] == [];
    }
    BodyAppend(before, [o], encode);
    assert Body(before + [o], encode) == Body(before, encode);
    BodyAppend(before + [o], after, encode);
    BodyAppend(before, after, encode);
  }

  /** An ignored argument, wherever it stands, does not change the body. */
  lemma IgnoredArgumentKeepsBody(parts: seq<Obj>, i: nat, encode: JString -> seq<byte>)
    requires i < |parts| && IsIgnored(parts[i])
    ensures Body(parts[..i] + parts[i + 1..], encode) == Body(parts, encode)
  {
    var before, after := parts[..i], parts[i + 1..];
    assert parts == before + [parts[i]] + after;
    BodySkipsIgnored(before, parts[i], after, encode);
  }

  /** With no byte[], String or GString argument the body is empty. */
  lemma {:induction false} BodyEmptyWithoutChunks(parts: seq<Obj>, encode: JString -> seq<byte>)
    requires forall i :: 0 <= i < |parts| ==> !IsChunk(parts[i])
    ensures Body(parts, encode) == []
    decreases |parts|
  {
    if parts != [] {
      var front := parts[..|parts| - 1];
      forall i | 0 <= i < |front| ensures !IsChunk(front[i]) {
        assert front[i] == parts[i];
      }
      BodyEmptyWithoutChunks(front, encode);
    }
  }

  /** Each argument's chunk sits in the body right after the chunks of the arguments before it. */
  lemma ChunkInBody(parts: seq<Obj>, i: nat, encode: JString -> seq<byte>)
    requires i < |parts|
    ensures var at := |Body(parts[..i], encode)|;
            at + |Chunk(parts[i], encode)| <= |Body(parts, encode)| &&
            Body(parts, encode)[at .. at + |Chunk(parts[i], encode)|] == Chunk(parts[i], encode)
  {
    assert parts == parts[..i] + [parts[i]] + parts[i + 1..];
    BodyAppend(parts[..i] + [parts[i]], parts[i + 1..], encode);
    BodyAppend(parts[..i], [parts[i]], encode);
    assert [parts[i]][..0] == [];
  }
}
