// server/internal/logread/helpers.go: reading one entry of the log from a store
// that serves it in bundles.
module LogRead {
  import opened Wrappers

  const BUNDLE_WIDTH: nat := 256

  // layout.PartialTileSize at level 0: how many entries the bundle has in a tree
  // of this size, or 0 when it is full.
  function PartialSize(bundle: nat, treeSize: nat): nat {
    if bundle < treeSize / BUNDLE_WIDTH then 0 else treeSize % BUNDLE_WIDTH
  }

  // The store: the entries of a bundle, full or partial, or an error.
  type Store<Entry> = (nat, nat) -> Result<seq<Entry>>

  function ReadLogEntryByIndex<Entry>(store: Store<Entry>, treeSize: nat, index: nat): Result<Entry> {
    if index >= treeSize then Err
    else
      var bundle, offset := index / BUNDLE_WIDTH, index % BUNDLE_WIDTH;
      var partial := PartialSize(bundle, treeSize);
      var first := store(bundle, partial);
      var raw := if first.Err? && partial != 0 then store(bundle, 0) else first;
      if raw.Err? then Err
      else if offset >= |raw.value| then Err
      else Ok(raw.value[offset])
  }

  // A bundle of that many entries, a full one for 0.
  function WidthOf(partial: nat): nat {
    if partial == 0 then BUNDLE_WIDTH else partial
  }

  // Whatever the store serves is the asked-for stretch of the log. It may refuse
  // anything, and the log may be longer than the tree that is read.
  ghost predicate ServesLog<Entry>(store: Store<Entry>, log: seq<Entry>) {
    forall bundle, partial | store(bundle, partial).Ok? :: IsStretch(log, bundle, partial, store(bundle, partial).value)
  }

  predicate IsStretch<Entry(==)>(log: seq<Entry>, bundle: nat, partial: nat, entries: seq<Entry>) {
    && bundle * BUNDLE_WIDTH + WidthOf(partial) <= |log|
    && entries == log[bundle * BUNDLE_WIDTH..bundle * BUNDLE_WIDTH + WidthOf(partial)]
  }

  // The partial size is below the width, and the bundle of an entry of the tree
  // reaches beyond that entry.
  lemma BundleReaches(treeSize: nat, index: nat)
    requires index < treeSize
    ensures var partial := PartialSize(index / BUNDLE_WIDTH, treeSize);
      partial < BUNDLE_WIDTH && index % BUNDLE_WIDTH < WidthOf(partial)
      && index / BUNDLE_WIDTH * BUNDLE_WIDTH + WidthOf(partial) <= treeSize
  {
  }

  // Reading gives an entry exactly when the index is in the tree and the store
  // serves the bundle in one of the two forms, and then it is the entry of the
  // log at that index.
  lemma ReadIsExact<Entry>(store: Store<Entry>, log: seq<Entry>, treeSize: nat, index: nat)
    requires ServesLog(store, log) && treeSize <= |log|
    ensures var bundle := index / BUNDLE_WIDTH;
      ReadLogEntryByIndex(store, treeSize, index) ==
        if index < treeSize && (store(bundle, PartialSize(bundle, treeSize)).Ok? || store(bundle, 0).Ok?)
        then Ok(log[index]) else Err
  {
  }

  // A store of the whole log, with or without partial bundles.
  function StoreOf<Entry>(log: seq<Entry>, servesPartials: bool): Store<Entry> {
    (bundle: nat, partial: nat) =>
      if bundle * BUNDLE_WIDTH + WidthOf(partial) <= |log| && (partial == 0 || servesPartials) then
        Ok(log[bundle * BUNDLE_WIDTH..bundle * BUNDLE_WIDTH + WidthOf(partial)])
      else Err
  }

  // From such a store every entry of every published tree can be read, except
  // that without partial bundles the bundle of the entry must have filled up.
  lemma StoredIsReadable<Entry>(log: seq<Entry>, servesPartials: bool, treeSize: nat, index: nat)
    requires treeSize <= |log|
    ensures ReadLogEntryByIndex(StoreOf(log, servesPartials), treeSize, index) ==
      if index < treeSize && (servesPartials || (index / 256 + 1) * 256 <= |log|)
      then Ok(log[index]) else Err
  {
    var store := StoreOf(log, servesPartials);
    ReadIsExact(store, log, treeSize, index);
    if index < treeSize {
      BundleReaches(treeSize, index);
    }
  }
}
