// Which records a read lets through: kadmin/record_reader.go, Filter.Filter and matchesFilter.
module RecordFilters {
  import opened Options
  import Strings

  // The zero value of the source's FilterType is the empty string, Unset here.
  datatype FilterType = Contains | StartsWith | NoFilter | Unset

  // The source also stores a value filter type, which matchesFilter never reads.
  datatype Filter = Filter(keyFilter: FilterType, keySearchTerm: string,
                           valueFilter: FilterType, valueSearchTerm: string)

  // A message whose bytes could not be deserialised is delivered with its error.
  datatype Payload = Undecodable | Decoded(value: string)

  datatype Message = Message(offset: int, key: string, payload: Payload)

  predicate KeyPasses(f: Filter, key: string) {
    match f.keyFilter
    case Contains => Strings.Contains(key, f.keySearchTerm)
    case StartsWith => Strings.HasPrefix(key, f.keySearchTerm)
    case _ => true
  }

  predicate MatchesFilter(key: string, value: string, filter: Option<Filter>) {
    match filter
    case None => true
    case Some(f) =>
      if f.keyFilter != NoFilter then KeyPasses(f, key)
      else f.valueSearchTerm == "" || Strings.Contains(value, f.valueSearchTerm)
  }

  // What the worker's loop sends on: everything without a filter, everything that
  // failed to deserialise, and whatever the filter matches.
  predicate Accepts(filter: Option<Filter>, m: Message) {
    filter.None? || m.payload.Undecodable? || MatchesFilter(m.key, m.payload.value, filter)
  }

  // The value search only ever has an effect when the key filter is "none": any
  // other key filter, the unset one included, makes it dead.
  lemma ValueSearchIsDeadIff(f: Filter)
    ensures (forall key, v, w :: MatchesFilter(key, v, Some(f)) == MatchesFilter(key, w, Some(f)))
       <==> f.keyFilter != NoFilter || f.valueSearchTerm == ""
  {
    if f.keyFilter == NoFilter && f.valueSearchTerm != "" {
      var term := f.valueSearchTerm;
      assert Strings.Contains(term, term) by { assert term <= term[0..]; }
      assert !Strings.Contains("", term);
      assert MatchesFilter("", term, Some(f)) && !MatchesFilter("", "", Some(f));
    }
  }

  // The filters that let everything through: none, one whose key filter was never
  // filled in, and those that search for the empty string.
  predicate AcceptsEverything(filter: Option<Filter>) {
    match filter
    case None => true
    case Some(f) =>
      match f.keyFilter
      case Unset => true
      case NoFilter => f.valueSearchTerm == ""
      case _ => f.keySearchTerm == ""
  }

  lemma AcceptsEverythingIff(filter: Option<Filter>)
    ensures (forall m :: Accepts(filter, m)) <==> AcceptsEverything(filter)
  {
    if AcceptsEverything(filter) {
      forall m
        ensures Accepts(filter, m)
      {
        assert "" <= m.key[0..];
      }
    } else {
      var m := Message(0, "", Decoded(""));
      assert !Accepts(filter, m);
    }
  }

  // In particular a filter that was never filled in, whatever its value search says.
  lemma UnsetFilterAcceptsAll(f: Filter, m: Message)
    requires f.keyFilter == Unset
    ensures Accepts(Some(f), m)
  {
  }

  // Which decoded messages the three searches let through.

  lemma StartsWithIff(f: Filter, m: Message)
    requires f.keyFilter == StartsWith && m.payload.Decoded?
    ensures Accepts(Some(f), m) <==> exists rest: string :: m.key == f.keySearchTerm + rest
  {
    Strings.PrefixIff(m.key, f.keySearchTerm);
  }

  lemma ContainsIff(f: Filter, m: Message)
    requires f.keyFilter == Contains && m.payload.Decoded?
    ensures Accepts(Some(f), m) <==> exists before: string, after: string :: m.key == before + f.keySearchTerm + after
  {
    Strings.ContainsIff(m.key, f.keySearchTerm);
  }

  lemma ValueSearchIff(f: Filter, m: Message)
    requires f.keyFilter == NoFilter && m.payload.Decoded?
    ensures Accepts(Some(f), m) <==> exists before: string, after: string :: m.payload.value == before + f.valueSearchTerm + after
  {
    Strings.ContainsIff(m.payload.value, f.valueSearchTerm);
    if f.valueSearchTerm == "" {
      assert m.payload.value == m.payload.value + "" + "";
    }
  }

  // A filter never drops a message that could not be deserialised, and a decoded one
  // it drops is dropped whatever its offset.
  lemma FailuresPass(filter: Option<Filter>, m: Message, offset: int)
    ensures m.payload.Undecodable? ==> Accepts(filter, m)
    ensures Accepts(filter, m) == Accepts(filter, m.(offset := offset))
  {
  }
}
