/** Reassembly of a shell transcript from the chunk artifacts of a job. */
module Transcript {
  import opened Common
  import opened StableSort

  /** An artifact with the numbers its metadata carries, if they are integers. */
  datatype Artifact = Artifact(
    isShellTranscript: bool,
    sequence: Option<int>,
    totalChunks: Option<int>,
    createdAt: int,
    content: string)

  const MAX_SAFE_INTEGER: int := 9007199254740991

  function Positive(n: Option<int>): Option<int> {
    if n.Some? && n.value >= 1 then n else None
  }

  function SequenceKey(a: Artifact): int {
    var sequence := Positive(a.sequence);
    if sequence.Some? then sequence.value else MAX_SAFE_INTEGER
  }

  predicate EarlierChunk(a: Artifact, b: Artifact) {
    SequenceKey(a) < SequenceKey(b) || (SequenceKey(a) == SequenceKey(b) && a.createdAt <= b.createdAt)
  }

  function Transcripts(artifacts: seq<Artifact>): seq<Artifact> {
    if artifacts == [] then []
    else (if artifacts[0].isShellTranscript then [artifacts[0]] else []) + Transcripts(artifacts[1..])
  }

  /** The largest total that any chunk declares, zero when none does. */
  function DeclaredTotal(chunks: seq<Artifact>): (total: nat)
    ensures forall c :: c in chunks && Positive(c.totalChunks).Some? ==> c.totalChunks.value <= total
    ensures total > 0 ==> exists c :: c in chunks && Positive(c.totalChunks) == Some(total)
  {
    if chunks == [] then 0
    else
      var n := |chunks| - 1;
      var total := DeclaredTotal(chunks[..n]);
      var declared := Positive(chunks[n].totalChunks);
      assert chunks == chunks[..n] + [chunks[n]];
      if declared.Some? && declared.value > total then declared.value else total
  }

  predicate Has(chunks: seq<Artifact>, sequence: int) {
    exists c :: c in chunks && c.sequence == Some(sequence)
  }

  /** The earliest delivered chunk with the number. */
  function First(chunks: seq<Artifact>, sequence: int): (c: Artifact)
    requires Has(chunks, sequence)
    ensures c in chunks && c.sequence == Some(sequence)
  {
    if chunks[0].sequence == Some(sequence) then chunks[0] else First(chunks[1..], sequence)
  }

  predicate Complete(chunks: seq<Artifact>, total: nat) {
    forall q :: 1 <= q <= total ==> Has(chunks, q)
  }

  /** The chunks numbered 1 to `total`. */
  function InOrder(chunks: seq<Artifact>, total: nat): (r: seq<Artifact>)
    requires Complete(chunks, total)
    ensures |r| == total
    ensures forall i :: 0 <= i < total ==> r[i] == First(chunks, i + 1)
  {
    if total == 0 then [] else InOrder(chunks, total - 1) + [First(chunks, total)]
  }

  /** The transcript's chunks in order, or nothing while a numbered chunk is missing. */
  function Reassembled(artifacts: seq<Artifact>): seq<Artifact> {
    var chunks := Transcripts(artifacts);
    var total := DeclaredTotal(chunks);
    if total == 0 then Sort(chunks, EarlierChunk)
    else if Complete(chunks, total) then InOrder(chunks, total)
    else []
  }

  /** One more delivered chunk matters only for a number that no earlier chunk has. */
  lemma {:induction false} OneMoreChunk(chunks: seq<Artifact>, c: Artifact, sequence: int)
    ensures Has(chunks + [c], sequence) <==> Has(chunks, sequence) || c.sequence == Some(sequence)
    ensures Has(chunks, sequence) ==> First(chunks + [c], sequence) == First(chunks, sequence)
    ensures !Has(chunks, sequence) && c.sequence == Some(sequence) ==> First(chunks + [c], sequence) == c
  {
    assert c in chunks + [c];
    assert forall x :: x in chunks ==> x in chunks + [c];
    if chunks != [] {
      assert (chunks + [c])[1..] == chunks[1..] + [c];
      OneMoreChunk(chunks[1..], c, sequence);
      assert forall x :: x in chunks <==> x == chunks[0] || x in chunks[1..];
    }
  }

  /** A set of numbers within 1 to n has n members exactly when it is all of them. */
  lemma {:induction false} Pigeonhole(s: set<int>, n: nat)
    requires forall q :: q in s ==> 1 <= q <= n
    ensures |s| <= n
    ensures |s| == n <==> forall q :: 1 <= q <= n ==> q in s
  {
    if n == 0 {
      var none: set<int> := {};
      assert forall q: int :: q in s <==> q in none;
      assert s == none;
    } else {
      Pigeonhole(s - {n}, n - 1);
    }
  }

  method ExpectedTotal(chunks: seq<Artifact>) returns (total: nat)
    ensures total == DeclaredTotal(chunks)
  {
    total := 0;
    for k := 0 to |chunks|
      invariant total == DeclaredTotal(chunks[..k])
    {
      assert chunks[..k + 1][..k] == chunks[..k];
      var declared := Positive(chunks[k].totalChunks);
      if declared.Some? && declared.value > total {
        total := declared.value;
      }
    }
    assert chunks[..|chunks|] == chunks;
  }

  method ChunksBySequence(chunks: seq<Artifact>, total: nat) returns (m: map<int, Artifact>)
    ensures forall q :: q in m <==> 1 <= q <= total && Has(chunks, q)
    ensures forall q :: q in m ==> m[q] == First(chunks, q)
  {
    m := map[];
    for k := 0 to |chunks|
      invariant forall q :: q in m <==> 1 <= q <= total && Has(chunks[..k], q)
      invariant forall q :: q in m ==> m[q] == First(chunks[..k], q)
    {
      assert chunks[..k + 1] == chunks[..k] + [chunks[k]];
      forall q {
        OneMoreChunk(chunks[..k], chunks[k], q);
      }
      var sequence := Positive(chunks[k].sequence);
      if sequence.Some? && sequence.value <= total && sequence.value !in m {
        m := m[sequence.value := chunks[k]];
      }
    }
    assert chunks[..|chunks|] == chunks;
  }

  /** The size test tells whether every number is present. */
  lemma SizeTest(chunks: seq<Artifact>, total: nat, m: map<int, Artifact>)
    requires forall q :: q in m <==> 1 <= q <= total && Has(chunks, q)
    ensures |m| == total <==> Complete(chunks, total)
  {
    Pigeonhole(m.Keys, total);
    if |m| == total {
      forall q | 1 <= q <= total ensures Has(chunks, q) {
        assert q in m.Keys;
      }
    } else {
      var q :| 1 <= q <= total && q !in m.Keys;
      assert !Has(chunks, q);
    }
  }

  method Collect(m: map<int, Artifact>, total: nat) returns (r: seq<Artifact>)
    requires forall q :: 1 <= q <= total ==> q in m
    ensures |r| == total
    ensures forall i :: 0 <= i < total ==> r[i] == m[i + 1]
  {
    r := seq(total, i requires 0 <= i < total => m[i + 1]);
  }

  method CompleteShellTranscriptArtifacts(artifacts: seq<Artifact>) returns (r: seq<Artifact>)
    ensures r == Reassembled(artifacts)
  {
    var chunks := Transcripts(artifacts);
    if |chunks| == 0 { return []; }
    var expectedTotal := ExpectedTotal(chunks);
    if expectedTotal == 0 {
      return Sort(chunks, EarlierChunk);
    }
    var chunksBySequence := ChunksBySequence(chunks, expectedTotal);
    SizeTest(chunks, expectedTotal, chunksBySequence);
    if |chunksBySequence| != expectedTotal { return []; }
    r := Collect(chunksBySequence, expectedTotal);
    assert r == InOrder(chunks, expectedTotal);
  }

  // ----- delivery of numbered chunks

  /** The artifact stores one of the chunks, with its number and the total, whenever it was stored. */
  predicate CopyOf(contents: seq<string>, a: Artifact) {
    && a.sequence.Some? && 1 <= a.sequence.value <= |contents|
    && a.totalChunks == Some(|contents|)
    && a.content == contents[a.sequence.value - 1]
  }

  /** Any nonempty list of copies declares the total. */
  lemma CopiesDeclareTotal(contents: seq<string>, chunks: seq<Artifact>)
    requires chunks != [] && forall c :: c in chunks ==> CopyOf(contents, c)
    ensures DeclaredTotal(chunks) == |contents|
  {
    var total := DeclaredTotal(chunks);
    assert chunks[0] in chunks && Positive(chunks[0].totalChunks) == Some(|contents|);
    var c :| c in chunks && Positive(c.totalChunks) == Some(total);
    assert CopyOf(contents, c);
  }

  lemma ContentsInOrder(contents: seq<string>, chunks: seq<Artifact>)
    requires Complete(chunks, |contents|) && forall c :: c in chunks ==> CopyOf(contents, c)
    ensures forall i :: 0 <= i < |contents| ==> InOrder(chunks, |contents|)[i].content == contents[i]
  {
    forall i | 0 <= i < |contents| ensures InOrder(chunks, |contents|)[i].content == contents[i] {
      assert Has(chunks, i + 1);
      assert CopyOf(contents, First(chunks, i + 1));
    }
  }

  /**
   Copies of the chunks among any other artifacts, in any order, stored at any times and with any
   repetitions, give back the contents of the chunks in order once every chunk is there.
   */
  lemma CopiesReassemble(contents: seq<string>, delivered: seq<Artifact>)
    requires forall a :: a in Transcripts(delivered) ==> CopyOf(contents, a)
    requires Complete(Transcripts(delivered), |contents|)
    ensures |Reassembled(delivered)| == |contents|
    ensures forall i :: 0 <= i < |contents| ==> Reassembled(delivered)[i].content == contents[i]
  {
    var chunks := Transcripts(delivered);
    if chunks == [] {
      assert contents != [] ==> Has(chunks, 1);
    } else {
      CopiesDeclareTotal(contents, chunks);
      assert CopyOf(contents, chunks[0]);
      assert Reassembled(delivered) == InOrder(chunks, |contents|);
      ContentsInOrder(contents, chunks);
    }
  }

  /** While any chunk is missing, nothing is given back. */
  lemma MissingChunkWithholds(contents: seq<string>, delivered: seq<Artifact>)
    requires forall a :: a in Transcripts(delivered) ==> CopyOf(contents, a)
    requires !Complete(Transcripts(delivered), |contents|)
    ensures Reassembled(delivered) == []
  {
    if Transcripts(delivered) != [] {
      CopiesDeclareTotal(contents, Transcripts(delivered));
    }
  }

  /** Chunks that declare no total are all kept, by number and then by age. */
  lemma UndeclaredTotalSorts(artifacts: seq<Artifact>)
    requires DeclaredTotal(Transcripts(artifacts)) == 0
    ensures multiset(Reassembled(artifacts)) == multiset(Transcripts(artifacts))
    ensures Sorted(Reassembled(artifacts), EarlierChunk)
  {
    if Transcripts(artifacts) != [] {
      SortIsStableSort(Transcripts(artifacts), Transcripts(artifacts)[0], EarlierChunk);
    }
  }
}
