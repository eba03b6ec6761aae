/**
 * The indexed reference FASTA the commands read bases from, as a map from
 * sequence name to bases, and AlignCommand.extractSequence on top of it.
 */
module RefStore {
  import opened Wrappers
  import opened Bases

  /** Sequence name to its bases. */
  type Store = map<string, seq<byte>>

  /** The positions start..stop (1-based, inclusive) exist in sequence `name`. */
  predicate Fetchable(store: Store, name: string, start: int, stop: int)
  {
    name in store && 1 <= start <= stop + 1 && stop <= |store[name]|
  }

  /**
   * getSubsequenceAt(name, start, stop): the bases at positions start..stop,
   * 1-based and inclusive (empty when start == stop + 1). None where the
   * store throws: an unknown name or positions outside the sequence.
   */
  function Fetch(store: Store, name: string, start: int, stop: int): (r: Option<seq<byte>>)
    ensures r.Some? <==> Fetchable(store, name, start, stop)
    ensures r.Some? ==> |r.value| == stop - start + 1
    ensures r.Some? ==> forall i :: 0 <= i < |r.value| ==> r.value[i] == store[name][start - 1 + i]
  {
    if Fetchable(store, name, start, stop) then Some(store[name][start - 1..stop]) else None
  }

  /** Fetching a window in two adjacent parts gives the window. */
  lemma FetchSplit(store: Store, name: string, start: int, mid: int, stop: int)
    requires Fetchable(store, name, start, stop) && start <= mid + 1 <= stop + 1
    ensures Fetch(store, name, start, mid).Some? && Fetch(store, name, mid + 1, stop).Some?
    ensures Fetch(store, name, start, stop).value
         == Fetch(store, name, start, mid).value + Fetch(store, name, mid + 1, stop).value
  {
    var s := store[name];
    assert s[start - 1..stop] == s[start - 1..mid] + s[mid..stop];
  }

  /** The bases of a window on the strand given: reverse complemented for the minus strand. */
  function Oriented(bases: seq<byte>, strand: bool): seq<byte>
  {
    if strand then bases else ReverseComplement(bases)
  }

  /**
   * extractSequence: fetch the window, then reverse complement the buffer
   * in place when the strand is false.
   */
  method ExtractSequence(store: Store, id: string, start: int, stop: int, strand: bool)
    returns (r: Option<seq<byte>>)
    ensures r.Some? <==> Fetchable(store, id, start, stop)
    ensures r.Some? ==> r.value == Oriented(Fetch(store, id, start, stop).value, strand)
  {
    var fetched := Fetch(store, id, start, stop);
    if fetched.None? {
      return None;
    }
    var bases := new byte[|fetched.value|](i requires 0 <= i < |fetched.value| => fetched.value[i]);
    if !strand {
      ReverseComplementInPlace(bases);
    }
    return Some(bases[..]);
  }

  /** Extracting on the minus strand and reverse complementing again gives the plus strand. */
  lemma OrientedMinusPlus(bases: seq<byte>)
    ensures ReverseComplement(Oriented(bases, false)) == Oriented(bases, true)
  {
    ReverseComplementInvolutive(bases);
  }
}
