/** The optimizer's configuration: the nested document load_config merges a loaded
    file into (update_config), and the three settings the rule pipeline reads. */
module Settings {

  /** A node of a loaded configuration document. */
  datatype Value =
    | Scalar(text: string)
    | List(items: seq<Value>)
    | Dict(entries: map<string, Value>)

  /** The value update_config leaves under a key of update: a recursive merge when
      both the old and the new value are dictionaries, the new value otherwise. */
  function MergedEntry(base: map<string, Value>, update: map<string, Value>, key: string): Value
    requires key in update
    decreases Dict(update), 0
  {
    if key in base && base[key].Dict? && update[key].Dict? then
      Dict(Merge(base[key].entries, update[key].entries))
    else update[key]
  }

  /** The dictionary base becomes after update_config(base, update). */
  function Merge(base: map<string, Value>, update: map<string, Value>): map<string, Value>
    decreases Dict(update), 1
  {
    map key | key in base.Keys + update.Keys ::
      if key in update then MergedEntry(base, update, key) else base[key]
  }

  /** update_config: every key of update ends up in base; where both the old and the
      new value are dictionaries they are merged recursively, otherwise the new value
      replaces the old; keys of base that update does not mention keep their values. */
  lemma MergeSpec(base: map<string, Value>, update: map<string, Value>)
    ensures Merge(base, update).Keys == base.Keys + update.Keys
    ensures forall key :: key in update && key in base && base[key].Dict? && update[key].Dict? ==>
      Merge(base, update)[key] == Dict(Merge(base[key].entries, update[key].entries))
    ensures forall key :: key in update && !(key in base && base[key].Dict? && update[key].Dict?) ==>
      Merge(base, update)[key] == update[key]
    ensures forall key :: key in base && key !in update ==> Merge(base, update)[key] == base[key]
  {
  }

  /** Merging an empty update changes nothing. */
  lemma MergeEmpty(base: map<string, Value>)
    ensures Merge(base, map[]) == base
  {
  }

  /** Merging the same update twice is merging it once. */
  lemma {:induction false} MergeIdempotent(base: map<string, Value>, update: map<string, Value>)
    ensures Merge(Merge(base, update), update) == Merge(base, update)
    decreases Dict(update)
  {
    var once := Merge(base, update);
    forall key | key in update
      ensures MergedEntry(once, update, key) == MergedEntry(base, update, key)
    {
      if key in base && base[key].Dict? && update[key].Dict? {
        MergeIdempotent(base[key].entries, update[key].entries);
      } else if update[key].Dict? {
        MergeSelf(update[key].entries);
      }
    }
  }

  /** Merging a dictionary into itself yields that dictionary. */
  lemma {:induction false} MergeSelf(update: map<string, Value>)
    ensures Merge(update, update) == update
    decreases Dict(update)
  {
    forall key | key in update
      ensures MergedEntry(update, update, key) == update[key]
    {
      if update[key].Dict? {
        MergeSelf(update[key].entries);
      }
    }
  }

  /** update_config(base, update) as the source runs it: a loop over the keys of
      update, recursing where both sides hold a dictionary. Key order does not
      matter, as each step touches only its own key. */
  method UpdateConfig(base: map<string, Value>, update: map<string, Value>) returns (merged: map<string, Value>)
    ensures merged == Merge(base, update)
    decreases Dict(update)
  {
    merged := base;
    var pending := update.Keys;
    while pending != {}
      invariant pending <= update.Keys
      invariant merged.Keys == base.Keys + (update.Keys - pending)
      invariant forall key :: key in merged ==>
        merged[key] == if key in update && key !in pending then MergedEntry(base, update, key) else base[key]
      decreases pending
    {
      var key :| key in pending;
      var value := update[key];
      if key in merged && merged[key].Dict? && value.Dict? {
        var sub := UpdateConfig(merged[key].entries, value.entries);
        merged := merged[key := Dict(sub)];
      } else {
        merged := merged[key := value];
      }
      pending := pending - {key};
    }
  }

  /** The settings the rule pipeline reads from the merged document. */
  datatype Config = Config(
    domainConvergence: bool,
    formatStandardize: bool,
    supportedModifiers: seq<string>)

  /** The defaults load_config starts from. */
  function DefaultConfig(): (c: Config)
    ensures c.domainConvergence && c.formatStandardize
    ensures |c.supportedModifiers| == 7
  {
    Config(true, true, ["domain", "third-party", "important", "client", "dnstype", "dnsrewrite", "rewrite"])
  }
}
