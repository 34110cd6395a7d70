/**
 * `split_into_chunks(document, chunk_size)` of indiv.py and main.py: split
 * the document on whitespace and rejoin every consecutive group of
 * `chunk_size` words with single spaces.
 */
module Chunker {
  import opened Strings
  import opened Seqs

  /**
   * The slices `words[i:i + size]` for `i` in `range(0, len(words), size)`:
   * consecutive groups of `size` words, the last possibly shorter.
   */
  function Groups(words: seq<string>, size: nat): (groups: seq<seq<string>>)
    requires size > 0
    ensures forall i :: 0 <= i < |groups| ==> 1 <= |groups[i]| <= size
    ensures forall i :: 0 <= i < |groups| - 1 ==> |groups[i]| == size
    decreases |words|
  {
    if words == [] then []
    else if |words| <= size then [words]
    else [words[..size]] + Groups(words[size..], size)
  }

  /**
   * `split_into_chunks(document, chunk_size)`. A negative size gives no
   * chunks, because `range` with a negative step from 0 up to a length is
   * empty; a size of 0 makes `range` raise, so callers must not pass it.
   */
  function SplitIntoChunks(document: string, chunkSize: int): (chunks: seq<string>)
    requires chunkSize != 0
  {
    if chunkSize < 0 then []
    else
      var groups := Groups(Words(document), chunkSize);
      seq(|groups|, i requires 0 <= i < |groups| => Join(groups[i], " "))
  }

  /** The groups concatenate back to the word list: no word is dropped, duplicated or moved. */
  lemma {:induction false} GroupsFlatten(words: seq<string>, size: nat)
    requires size > 0
    ensures Flatten(Groups(words, size)) == words
    decreases |words|
  {
    if words != [] && |words| > size {
      var g := Groups(words, size);
      assert g[0] == words[..size] && g[1..] == Groups(words[size..], size);
      GroupsFlatten(words[size..], size);
      assert words == words[..size] + words[size..];
    } else if words != [] {
      assert Flatten([words]) == words + Flatten([]);
    }
  }

  lemma {:induction false} MulAtLeast(d: int, k: int)
    requires d >= 1 && k > 0
    ensures d * k >= k
  {
    if d > 1 {
      MulAtLeast(d - 1, k);
      assert d * k == (d - 1) * k + k;
    }
  }

  /** Euclidean division is determined by quotient and remainder. */
  lemma DivUnique(a: int, k: int, q: int, r: int)
    requires k > 0 && 0 <= r < k && a == q * k + r
    ensures a / k == q
  {
    var q', r' := a / k, a % k;
    assert a == q' * k + r' && 0 <= r' < k;
    if q > q' {
      MulAtLeast(q - q', k);
    } else if q < q' {
      MulAtLeast(q' - q, k);
    }
  }

  lemma DivStep(a: int, k: int)
    requires a >= 0 && k > 0
    ensures (a + k) / k == a / k + 1
  {
    var q, r := a / k, a % k;
    assert a == q * k + r && 0 <= r < k;
    assert (q + 1) * k == q * k + k;
    DivUnique(a + k, k, q + 1, r);
  }

  /** There are ceil(n / size) groups of n words. */
  lemma {:induction false} GroupsCount(words: seq<string>, size: nat)
    requires size > 0
    ensures |Groups(words, size)| == (|words| + size - 1) / size
    decreases |words|
  {
    var n := |words|;
    if words == [] {
      DivUnique(size - 1, size, 0, size - 1);
    } else if n <= size {
      DivUnique(n - 1, size, 0, n - 1);
      DivStep(n - 1, size);
    } else {
      GroupsCount(words[size..], size);
      DivStep(n - 1, size);
      assert n + size - 1 == (n - 1) + size;
    }
  }

  /** Each chunk, split again, gives back exactly the words of its group. */
  lemma ChunkWords(document: string, chunkSize: int, i: int)
    requires chunkSize > 0
    requires 0 <= i < |SplitIntoChunks(document, chunkSize)|
    ensures Words(SplitIntoChunks(document, chunkSize)[i]) == Groups(Words(document), chunkSize)[i]
  {
    var groups := Groups(Words(document), chunkSize);
    var g := groups[i];
    assert forall j :: 0 <= j < |g| ==> g[j] in Words(document) by {
      GroupsFlatten(Words(document), chunkSize);
      forall j | 0 <= j < |g| ensures g[j] in Words(document) {
        FlattenMember(groups, i, j);
      }
    }
    forall j | 0 <= j < |g| ensures IsWord(g[j]) {
      var ws := Words(document);
      var k :| 0 <= k < |ws| && ws[k] == g[j];
    }
    WordsOfJoin(g);
  }

  lemma {:induction false} FlattenMember<T>(xss: seq<seq<T>>, i: int, j: int)
    requires 0 <= i < |xss| && 0 <= j < |xss[i]|
    ensures xss[i][j] in Flatten(xss)
  {
    if i > 0 {
      FlattenMember(xss[1..], i - 1, j);
    }
  }

  /**
   * Round trip: the words of all chunks, concatenated in chunk order, are
   * exactly `document.split()`.
   */
  lemma ChunksRoundTrip(document: string, chunkSize: int)
    requires chunkSize > 0
    ensures var chunks := SplitIntoChunks(document, chunkSize);
      Flatten(seq(|chunks|, i requires 0 <= i < |chunks| => Words(chunks[i]))) == Words(document)
  {
    var chunks := SplitIntoChunks(document, chunkSize);
    var groups := Groups(Words(document), chunkSize);
    var resplit := seq(|chunks|, i requires 0 <= i < |chunks| => Words(chunks[i]));
    forall i | 0 <= i < |chunks| ensures resplit[i] == groups[i] {
      ChunkWords(document, chunkSize, i);
    }
    assert resplit == groups;
    GroupsFlatten(Words(document), chunkSize);
  }

  /**
   * Every chunk holds between one and `chunkSize` words, every chunk but the
   * last exactly `chunkSize`, and no chunk starts or ends with whitespace.
   */
  lemma ChunkShape(document: string, chunkSize: int, i: int)
    requires chunkSize > 0
    requires 0 <= i < |SplitIntoChunks(document, chunkSize)|
    ensures var chunks := SplitIntoChunks(document, chunkSize);
      && 1 <= |Words(chunks[i])| <= chunkSize
      && (i < |chunks| - 1 ==> |Words(chunks[i])| == chunkSize)
      && !IsSpace(chunks[i][0]) && !IsSpace(chunks[i][|chunks[i]| - 1])
  {
    ChunkWords(document, chunkSize, i);
    var g := Groups(Words(document), chunkSize)[i];
    assert Words(Join(g, " ")) == g;
    JoinWordsEdges(g);
  }

  /** The number of chunks is ceil(n / chunkSize) for n words. */
  lemma ChunkCount(document: string, chunkSize: int)
    requires chunkSize > 0
    ensures |SplitIntoChunks(document, chunkSize)| == (|Words(document)| + chunkSize - 1) / chunkSize
  {
    GroupsCount(Words(document), chunkSize);
  }

  /** There are no chunks exactly when the document is empty or only whitespace. */
  lemma NoChunks(document: string, chunkSize: int)
    requires chunkSize > 0
    ensures SplitIntoChunks(document, chunkSize) == [] <==> AllSpace(document)
  {
    WordsEmpty(document);
    if Words(document) != [] {
      assert |Groups(Words(document), chunkSize)| > 0;
    }
  }

  lemma {:induction false} JoinOfJoinedGroups(groups: seq<seq<string>>, joined: seq<string>)
    requires forall i :: 0 <= i < |groups| ==> |groups[i]| > 0
    requires |joined| == |groups| && forall i :: 0 <= i < |groups| ==> joined[i] == Join(groups[i], " ")
    ensures Join(joined, " ") == Join(Flatten(groups), " ")
  {
    if |groups| == 1 {
      assert Flatten(groups) == groups[0] + Flatten(groups[1..]);
      assert groups[1..] == [];
      assert groups[0] + [] == groups[0];
    } else if |groups| > 1 {
      JoinOfJoinedGroups(groups[1..], joined[1..]);
      assert Flatten(groups) == groups[0] + Flatten(groups[1..]);
      assert |Flatten(groups[1..])| > 0 by {
        assert Flatten(groups[1..]) == groups[1] + Flatten(groups[2..]);
      }
      JoinConcat(groups[0], Flatten(groups[1..]), " ");
    }
  }

  /**
   * Joining all chunks with single spaces gives the document with its
   * whitespace normalised: its words joined by single spaces.
   */
  lemma ChunksJoin(document: string, chunkSize: int)
    requires chunkSize > 0
    ensures Join(SplitIntoChunks(document, chunkSize), " ") == Join(Words(document), " ")
  {
    var groups := Groups(Words(document), chunkSize);
    JoinOfJoinedGroups(groups, SplitIntoChunks(document, chunkSize));
    GroupsFlatten(Words(document), chunkSize);
  }
}
