/** The truthset sidecar file: two header words, then all ids, then all distances, in little-endian 32-bit
    words. Distances are kept as the bits of a float. */
module Truthset {
  import opened Base
  import opened WordFiles

  datatype Neighbor = Neighbor(id: Word, dist: Word)

  datatype Groundtruth = Groundtruth(K: Word, lists: seq<seq<Neighbor>>)

  /** int32_t read from a word. */
  function Int32(w: Word): int {
    if w < 0x8000_0000 then w else w - 0x1_0000_0000
  }

  // ---------------------------------------------------------------- what is written

  /** The first k neighbours, zeros after the end of the list. */
  function Padded(list: seq<Neighbor>, k: nat): (r: seq<Neighbor>)
    ensures |r| == k
  {
    seq(k, j requires 0 <= j < k => if j < |list| then list[j] else Neighbor(0, 0))
  }

  function Ids(list: seq<Neighbor>, k: nat): (r: seq<Word>)
    ensures |r| == k
  {
    seq(k, j requires 0 <= j < k => Padded(list, k)[j].id)
  }

  function Dists(list: seq<Neighbor>, k: nat): (r: seq<Word>)
    ensures |r| == k
  {
    seq(k, j requires 0 <= j < k => Padded(list, k)[j].dist)
  }

  /** The entries of n rows of k. */
  function Cells(n: nat, k: nat): nat {
    if n == 0 then 0 else Cells(n - 1, k) + k
  }

  lemma {:induction false} CellsIsProduct(n: nat, k: nat)
    ensures Cells(n, k) == n * k
  {
    if n != 0 {
      CellsIsProduct(n - 1, k);
      assert n * k == (n - 1) * k + k;
    }
  }

  function IdRows(lists: seq<seq<Neighbor>>, k: nat): (r: seq<Word>)
    ensures |r| == Cells(|lists|, k)
  {
    if lists == [] then []
    else
      var l := |lists| - 1;
      IdRows(lists[..l], k) + Ids(lists[l], k)
  }

  function DistRows(lists: seq<seq<Neighbor>>, k: nat): (r: seq<Word>)
    ensures |r| == Cells(|lists|, k)
  {
    if lists == [] then []
    else
      var l := |lists| - 1;
      DistRows(lists[..l], k) + Dists(lists[l], k)
  }

  /** Row q lies within the first n. */
  lemma {:induction false} RowInside(q: nat, n: nat, k: nat, j: nat)
    requires q < n && j < k
    ensures Cells(q, k) + j < Cells(n, k)
  {
    if q < n - 1 { RowInside(q, n - 1, k, j); }
  }

  lemma {:induction false} IdRowsAt(lists: seq<seq<Neighbor>>, k: nat, q: nat, j: nat)
    requires q < |lists| && j < k
    ensures Cells(q, k) + j < Cells(|lists|, k) && IdRows(lists, k)[Cells(q, k) + j] == Padded(lists[q], k)[j].id
  {
    var l := |lists| - 1;
    RowInside(q, |lists|, k, j);
    if q < l {
      RowInside(q, l, k, j);
      IdRowsAt(lists[..l], k, q, j);
    }
  }

  lemma {:induction false} DistRowsAt(lists: seq<seq<Neighbor>>, k: nat, q: nat, j: nat)
    requires q < |lists| && j < k
    ensures Cells(q, k) + j < Cells(|lists|, k) && DistRows(lists, k)[Cells(q, k) + j] == Padded(lists[q], k)[j].dist
  {
    var l := |lists| - 1;
    RowInside(q, |lists|, k, j);
    if q < l {
      RowInside(q, l, k, j);
      DistRowsAt(lists[..l], k, q, j);
    }
  }

  function Words(gt: Groundtruth): (r: seq<Word>)
    ensures |r| == 2 + 2 * Cells(|gt.lists|, gt.K)
  {
    [|gt.lists| % 0x1_0000_0000, gt.K] + IdRows(gt.lists, gt.K) + DistRows(gt.lists, gt.K)
  }

  /** std::fill with zeros, then the first entries of the list. */
  method FillIds(list: seq<Neighbor>, k: nat) returns (ids: seq<Word>)
    ensures ids == Ids(list, k)
  {
    ids := seq(k, _ => 0);
    var n := if |list| < k then |list| else k;
    for j := 0 to n
      invariant |ids| == k && (forall i | 0 <= i < j :: ids[i] == list[i].id) && forall i | j <= i < k :: ids[i] == 0
    {
      ids := ids[j := list[j].id];
    }
  }

  method FillDists(list: seq<Neighbor>, k: nat) returns (dists: seq<Word>)
    ensures dists == Dists(list, k)
  {
    dists := seq(k, _ => 0);
    var n := if |list| < k then |list| else k;
    for j := 0 to n
      invariant |dists| == k
      invariant (forall i | 0 <= i < j :: dists[i] == list[i].dist) && forall i | j <= i < k :: dists[i] == 0
    {
      dists := dists[j := list[j].dist];
    }
  }

  method IdBytes(lists: seq<seq<Neighbor>>, k: nat) returns (out: seq<Byte>)
    ensures out == Encode(IdRows(lists, k))
  {
    out := [];
    for q := 0 to |lists|
      invariant out == Encode(IdRows(lists[..q], k))
    {
      var ids := FillIds(lists[q], k);
      assert lists[..q + 1][..q] == lists[..q];
      EncodeJoins(IdRows(lists[..q], k), ids);
      out := out + Encode(ids);
    }
    assert lists[..|lists|] == lists;
  }

  method DistBytes(lists: seq<seq<Neighbor>>, k: nat) returns (out: seq<Byte>)
    ensures out == Encode(DistRows(lists, k))
  {
    out := [];
    for q := 0 to |lists|
      invariant out == Encode(DistRows(lists[..q], k))
    {
      var dists := FillDists(lists[q], k);
      assert lists[..q + 1][..q] == lists[..q];
      EncodeJoins(DistRows(lists[..q], k), dists);
      out := out + Encode(dists);
    }
    assert lists[..|lists|] == lists;
  }

  lemma EncodeHeader(a: Word, b: Word)
    ensures Encode([a, b]) == BytesOf(a) + BytesOf(b)
  {
    assert [a, b][1..] == [b] && [b][1..] == [];
    assert Encode([b]) == BytesOf(b) + Encode([]);
  }

  /** The j-th entry of list q as it is saved, at its place: the neighbour if the list has one there, zeros if not. */
  ghost predicate EntryAt(words: seq<Word>, gt: Groundtruth, q: nat, j: nat)
    requires q < |gt.lists|
  {
    var total, at := Cells(|gt.lists|, gt.K), Cells(q, gt.K) + j;
    && at < total && |words| == 2 + 2 * total
    && words[2 + at] == (if j < |gt.lists[q]| then gt.lists[q][j].id else 0)
    && words[2 + total + at] == if j < |gt.lists[q]| then gt.lists[q][j].dist else 0
  }

  /** The words of a saved truthset: two counts, then id rows and distance rows. */
  ghost predicate Saved(words: seq<Word>, gt: Groundtruth) {
    && |words| == 2 + 2 * Cells(|gt.lists|, gt.K)
    && words[0] == |gt.lists| % 0x1_0000_0000 && words[1] == gt.K
    && forall q: nat, j: nat | q < |gt.lists| && j < gt.K :: EntryAt(words, gt, q, j)
  }

  lemma SavedEntry(gt: Groundtruth, q: nat, j: nat)
    requires q < |gt.lists| && j < gt.K
    ensures EntryAt(Words(gt), gt, q, j)
  {
    IdRowsAt(gt.lists, gt.K, q, j);
    DistRowsAt(gt.lists, gt.K, q, j);
  }

  lemma WordsAreSaved(gt: Groundtruth)
    ensures Saved(Words(gt), gt)
  {
    forall q: nat, j: nat | q < |gt.lists| && j < gt.K ensures EntryAt(Words(gt), gt, q, j) { SavedEntry(gt, q, j); }
  }

  /** save_live_groundtruth. A K of 2^31 or more turns negative as int32_t and the row buffers cannot be
      allocated: None stands for that exception. */
  method Save(gt: Groundtruth) returns (file: Option<seq<Byte>>)
    ensures file.None? <==> gt.K >= 0x8000_0000
    ensures file.Some? ==> file.value == Encode(Words(gt)) && Saved(Decode(file.value), gt)
  {
    WordsAreSaved(gt);
    FileRoundTrip(Words(gt));
    var npts: Word, k := |gt.lists| % 0x1_0000_0000, Int32(gt.K);
    var out := BytesOf(npts) + BytesOf(gt.K);
    if k < 0 {
      return None;
    }
    var ids := IdBytes(gt.lists, k);
    var dists := DistBytes(gt.lists, k);
    EncodeHeader(npts, gt.K);
    EncodeJoins([npts, gt.K], IdRows(gt.lists, k));
    EncodeJoins([npts, gt.K] + IdRows(gt.lists, k), DistRows(gt.lists, k));
    return Some(out + ids + dists);
  }

  // ---------------------------------------------------------------- what is read

  /** The words of a file that holds at least nEval lists of at least K entries, whole. */
  predicate Readable(words: seq<Word>, nEval: nat, K: nat) {
    && nEval > 0 && K > 0 && |words| >= 2
    && var npts, k := Int32(words[0]), Int32(words[1]);
       && npts > 0 && k > 0 && npts >= nEval && k >= K
       && |words| >= 2 + 2 * Cells(npts, k)
  }

  /** The list has the ids of the row that starts at entry `row`. */
  ghost predicate IdsRead(words: seq<Word>, row: nat, list: seq<Neighbor>, K: nat) {
    && |list| == K && |words| >= 2 + row + K
    && forall j | 0 <= j < K :: list[j] == Neighbor(words[2 + row + j], 0)
  }

  /** And its distances, which follow the `total` ids. */
  ghost predicate ListRead(words: seq<Word>, total: nat, row: nat, list: seq<Neighbor>, K: nat) {
    && |list| == K && |words| >= 2 + 2 * total && row + K <= total
    && forall j | 0 <= j < K :: list[j] == Neighbor(words[2 + row + j], words[2 + total + row + j])
  }

  lemma IdsRow(words: seq<Word>, row: nat, k: nat, K: nat, ids: seq<Word>, list: seq<Neighbor>)
    requires 2 + row + k <= |words| && K <= k && |list| == K && ids == words[2 + row..2 + row + k]
    requires forall j | 0 <= j < K :: list[j] == Neighbor(ids[j], 0)
    ensures IdsRead(words, row, list, K)
  {}

  lemma DistsRow(words: seq<Word>, total: nat, row: nat, k: nat, K: nat, given: seq<Neighbor>, list: seq<Neighbor>)
    requires 2 + 2 * total <= |words| && K <= k && row + k <= total
    requires IdsRead(words, row, given, K) && |list| == K
    requires forall j | 0 <= j < K ::
      list[j] == Neighbor(given[j].id, words[2 + total + row..2 + total + row + k][j])
    ensures ListRead(words, total, row, list, K)
  {}

  lemma {:induction false} RowsBelow(a: nat, b: nat, k: nat)
    requires a <= b
    ensures Cells(a, k) <= Cells(b, k)
  {
    if a < b {
      RowsBelow(a, b - 1, k);
    }
  }

  /** ifstream::read of k words, the position counted in words: fails if the file ends before. */
  method ReadWords(words: seq<Word>, at: nat, k: nat) returns (ok: bool, buffer: seq<Word>)
    ensures ok <==> at + k <= |words|
    ensures ok ==> buffer == words[at..at + k]
  {
    ok := at + k <= |words|;
    buffer := if ok then words[at..at + k] else [];
  }

  method ReadIds(words: seq<Word>, npts: nat, k: nat, nEval: nat, K: nat)
    returns (ok: bool, at: nat, lists: seq<seq<Neighbor>>)
    requires 0 < nEval <= npts && 0 < K <= k && 2 <= |words|
    ensures ok <==> 2 + Cells(npts, k) <= |words|
    ensures ok ==> at == 2 + Cells(npts, k)
    ensures ok ==> |lists| == nEval && forall q | 0 <= q < nEval :: IdsRead(words, Cells(q, k), lists[q], K)
  {
    at, lists := 2, [];
    for q := 0 to npts
      invariant at == 2 + Cells(q, k) <= |words|
      invariant |lists| == if q < nEval then q else nEval
      invariant forall p | 0 <= p < |lists| :: IdsRead(words, Cells(p, k), lists[p], K)
    {
      var more, ids := ReadWords(words, at, k);
      if !more {
        RowsBelow(q + 1, npts, k);
        return false, at, lists;
      }
      if q < nEval {
        var list := seq(K, j requires 0 <= j < K => Neighbor(ids[j], 0));
        IdsRow(words, Cells(q, k), k, K, ids, list);
        lists := lists + [list];
      }
      at := at + k;
    }
    ok := true;
  }

  method ReadDists(words: seq<Word>, start: nat, npts: nat, k: nat, nEval: nat, K: nat, given: seq<seq<Neighbor>>)
    returns (ok: bool, lists: seq<seq<Neighbor>>)
    requires 0 < nEval <= npts && 0 < K <= k && start == 2 + Cells(npts, k) <= |words|
    requires |given| == nEval && forall q | 0 <= q < nEval :: IdsRead(words, Cells(q, k), given[q], K)
    ensures ok <==> 2 + 2 * Cells(npts, k) <= |words|
    ensures ok ==> |lists| == nEval
    ensures ok ==> forall q | 0 <= q < nEval :: ListRead(words, Cells(npts, k), Cells(q, k), lists[q], K)
  {
    ghost var total, whole := Cells(npts, k), 2 + 2 * Cells(npts, k) <= |words|;
    var at := start;
    lists := given;
    for q := 0 to npts
      invariant at == 2 + total + Cells(q, k) <= |words|
      invariant |lists| == nEval
      invariant forall p | q <= p < nEval :: lists[p] == given[p]
      invariant whole ==> forall p | 0 <= p < q && p < nEval :: ListRead(words, total, Cells(p, k), lists[p], K)
    {
      RowsBelow(q + 1, npts, k);
      var more, dists := ReadWords(words, at, k);
      if !more {
        return false, lists;
      }
      if q < nEval {
        var list := seq(K, j requires 0 <= j < K => Neighbor(given[q][j].id, dists[j]));
        if whole { DistsRow(words, total, Cells(q, k), k, K, given[q], list); }
        lists := lists[q := list];
      }
      at := at + k;
    }
    ok := true;
  }

  /** The size check is done in 64 bits: the unsigned product may wrap and the signed comparison may see it as
      negative, so that a short file passes it; it never turns a whole file away. */
  predicate TooShort(size: nat, npts: nat, k: nat) {
    var expected := (8 + 2 * Cells(npts, k) * 4) % 0x1_0000_0000_0000_0000;
    size < if expected < 0x8000_0000_0000_0000 then expected else expected - 0x1_0000_0000_0000_0000
  }

  lemma WholeIsNotTooShort(size: nat, npts: nat, k: nat)
    requires size >= 8 + 8 * Cells(npts, k)
    ensures !TooShort(size, npts, k)
  {
    var full: nat := 8 + 2 * Cells(npts, k) * 4;
    assert full % 0x1_0000_0000_0000_0000 <= full;
  }

  /** The size test alone tells whole files from short ones exactly as long as the true size is below 2^63. */
  lemma SizeTestExactIff(npts: nat, k: nat)
    ensures (forall size: nat :: TooShort(size, npts, k) <==> size < 8 + 8 * Cells(npts, k)) <==>
      8 + 8 * Cells(npts, k) < 0x8000_0000_0000_0000
  {
    var full: nat := 8 + 2 * Cells(npts, k) * 4;
    if full >= 0x8000_0000_0000_0000 {
      var short: nat := full - 1;
      assert short < full && !TooShort(short, npts, k);
    }
  }

  /** A header without any list passes it; reading the first row then fails. */
  lemma HeaderPassesSizeTest()
    ensures var words: seq<Word> := [0x4000_0000, 0x4000_0000];
      !TooShort(|Encode(words)|, words[0], words[1]) && !Readable(words, 1, 1)
  {
    CellsIsProduct(0x4000_0000, 0x4000_0000);
  }

  /** load_live_groundtruth: the first K entries of the first nEval lists, or a refusal. */
  method Load(file: seq<Byte>, nEval: nat, K: Word) returns (ok: bool, lists: seq<seq<Neighbor>>)
    ensures ok <==> Readable(Decode(file), nEval, K)
    ensures ok ==> |lists| == nEval
    ensures ok ==> forall q | 0 <= q < nEval ::
      var npts, k := Int32(Decode(file)[0]), Int32(Decode(file)[1]);
      ListRead(Decode(file), Cells(npts, k), Cells(q, k), lists[q], K)
  {
    lists := [];
    var words := Decode(file);
    if nEval == 0 || K == 0 || |words| < 2 {
      return false, lists;
    }
    var npts, k := Int32(words[0]), Int32(words[1]);
    if npts <= 0 || k <= 0 || npts < nEval || k < K || TooShort(|file|, npts, k) {
      if npts > 0 && k > 0 && |file| >= 8 + 8 * Cells(npts, k) {
        WholeIsNotTooShort(|file|, npts, k);
      }
      return false, lists;
    }
    var at: nat;
    ok, at, lists := ReadIds(words, npts, k, nEval, K);
    if ok {
      ok, lists := ReadDists(words, at, npts, k, nEval, K, lists);
    }
  }

  // ---------------------------------------------------------------- round trip

  /** What save_live_groundtruth can represent: counts that fit int32_t. */
  predicate Fits(gt: Groundtruth) {
    0 < |gt.lists| < 0x8000_0000 && 0 < gt.K < 0x8000_0000
  }

  /** A saved file is accepted for no more queries and neighbours than were saved, and each list then comes back
      as its first K' entries, zeros after its end. */
  lemma SavedCanBeLoaded(gt: Groundtruth, nEval: nat, K': nat, q: nat, list: seq<Neighbor>)
    requires Fits(gt) && 0 < nEval <= |gt.lists| && 0 < K' <= gt.K && q < nEval
    ensures Readable(Decode(Encode(Words(gt))), nEval, K')
    ensures ListRead(Decode(Encode(Words(gt))), Cells(|gt.lists|, gt.K), Cells(q, gt.K), list, K')
       <==> |list| == K' && forall j | 0 <= j < K' ::
              list[j] == if j < |gt.lists[q]| then gt.lists[q][j] else Neighbor(0, 0)
  {
    FileRoundTrip(Words(gt));
    SavedList(gt, Words(gt), Cells(|gt.lists|, gt.K), Cells(q, gt.K), q, list, K');
  }

  lemma SavedList(gt: Groundtruth, words: seq<Word>, total: nat, row: nat, q: nat, list: seq<Neighbor>, K': nat)
    requires words == Words(gt) && total == Cells(|gt.lists|, gt.K) && row == Cells(q, gt.K)
    requires q < |gt.lists| && 0 < K' <= gt.K
    ensures ListRead(words, total, row, list, K') <==>
      |list| == K' && forall j | 0 <= j < K' :: list[j] == if j < |gt.lists[q]| then gt.lists[q][j] else Neighbor(0, 0)
  {
    forall j | 0 <= j < K'
      ensures row + j < total
      ensures Neighbor(words[2 + row + j], words[2 + total + row + j])
           == if j < |gt.lists[q]| then gt.lists[q][j] else Neighbor(0, 0)
    {
      SavedEntry(gt, q, j);
    }
    SavedEntry(gt, q, K' - 1);
  }

  /** Of a saved file, nothing but the whole can be loaded. */
  lemma TruncatedIsRejected(gt: Groundtruth, size: nat, nEval: nat, K': nat)
    requires Fits(gt) && size < |Encode(Words(gt))|
    ensures !Readable(Decode(Encode(Words(gt))[..size]), nEval, K')
  {
    var words := Words(gt);
    FileRoundTrip(words);
    Truncated(Encode(words), size);
    ShortIsRejected(gt, words, words[..size / 4], nEval, K');
  }

  lemma ShortIsRejected(gt: Groundtruth, words: seq<Word>, short: seq<Word>, nEval: nat, K': nat)
    requires Fits(gt) && words == Words(gt) && short <= words && |short| < |words|
    ensures !Readable(short, nEval, K')
  {}
}
