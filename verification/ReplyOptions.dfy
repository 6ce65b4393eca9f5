/** The option lists the server puts into its replies. */
module ReplyOptions {
  import opened Words
  import opened DhcpOptions
  import opened OptionLists

  /** A zero-terminated tag array, read up to its terminator. */
  function UpToNul(tags: seq<byte>): (r: seq<byte>)
    ensures 0 !in r
    ensures r <= tags
  {
    if tags == [] || tags[0] == 0 then [] else [tags[0]] + UpToNul(tags[1..])
  }

  /** Pool options override global ones. */
  function Configured(tag: byte, global: seq<DhcpOption>, pool: seq<DhcpOption>): Option<DhcpOption> {
    var o := Retrieve(pool, tag);
    if o.Some? then o else Retrieve(global, tag)
  }

  function AddRequired(dest: seq<DhcpOption>, tags: seq<byte>, blacklist: seq<byte>,
                       global: seq<DhcpOption>, pool: seq<DhcpOption>): Option<seq<DhcpOption>>
    decreases tags
  {
    if tags == [] then Some(dest)
    else if tags[0] in blacklist then AddRequired(dest, tags[1..], blacklist, global, pool)
    else
      match Configured(tags[0], global, pool)
      case None => None
      case Some(o) => AddRequired(AddOption(dest, CopyOption(o)), tags[1..], blacklist, global, pool)
  }

  function AddRequested(dest: seq<DhcpOption>, tags: seq<byte>, blacklist: seq<byte>,
                        global: seq<DhcpOption>, pool: seq<DhcpOption>): seq<DhcpOption>
    decreases tags
  {
    if tags == [] then dest
    else
      var o := Configured(tags[0], global, pool);
      AddRequested(if tags[0] in blacklist || o.None? then dest else AddOption(dest, CopyOption(o.value)),
                   tags[1..], blacklist, global, pool)
  }

  function MessageTypeOption(kind: byte): DhcpOption {
    DhcpOption(MESSAGE_TYPE, Numeric, 1, ZeroPadded([kind]))
  }

  /** dhcp_option_build_required_options on an empty destination; None is its error return. */
  function Build(requested: seq<byte>, required: seq<byte>, blacklist: seq<byte>,
                 global: seq<DhcpOption>, pool: seq<DhcpOption>, kind: byte): Option<seq<DhcpOption>>
  {
    var black := UpToNul(blacklist);
    match AddRequired([MessageTypeOption(kind)], UpToNul(required), black, global, pool)
    case None => None
    case Some(dest) => Some(AddRequested(dest, UpToNul(requested), black, global, pool))
  }

  /** The octets a list of options occupies, without END. */
  function Size(options: seq<DhcpOption>): nat {
    if options == [] then 0 else 2 + options[0].length + Size(options[1..])
  }

  // ---------------------------------------------------------------- what the built list contains

  ghost predicate IsEligible(tag: byte, blacklist: seq<byte>, global: seq<DhcpOption>, pool: seq<DhcpOption>) {
    tag !in blacklist && HasSetting(pool, global, tag)
  }

  lemma ConfiguredIs(tag: byte, global: seq<DhcpOption>, pool: seq<DhcpOption>)
    ensures forall x :: Setting(pool, global, tag, x) <==> Configured(tag, global, pool) == Some(x)
    ensures HasSetting(pool, global, tag) <==> Configured(tag, global, pool).Some?
  {
    RetrieveIs(pool, tag);
    RetrieveIs(global, tag);
  }

  /** The tags that may go into the reply, repetitions included. */
  ghost function Eligible(tags: seq<byte>, blacklist: seq<byte>, global: seq<DhcpOption>, pool: seq<DhcpOption>): seq<byte> {
    if tags == [] then []
    else (if IsEligible(tags[0], blacklist, global, pool) then [tags[0]] else []) + Eligible(tags[1..], blacklist, global, pool)
  }

  lemma {:induction false} EligibleTwice(xs: seq<byte>, ys: seq<byte>, blacklist: seq<byte>,
                                         global: seq<DhcpOption>, pool: seq<DhcpOption>)
    ensures Eligible(xs + ys, blacklist, global, pool) ==
            Eligible(xs, blacklist, global, pool) + Eligible(ys, blacklist, global, pool)
  {
    if xs == [] {
      assert xs + ys == ys;
    } else {
      assert (xs + ys)[1..] == xs[1..] + ys;
      EligibleTwice(xs[1..], ys, blacklist, global, pool);
    }
  }

  /** A copy of the option that counts for the pool. */
  ghost predicate IsCopy(o: DhcpOption, blacklist: seq<byte>, global: seq<DhcpOption>, pool: seq<DhcpOption>) {
    o.tag !in blacklist && exists x :: Setting(pool, global, o.tag, x) && o == CopyOption(x)
  }

  lemma ConfiguredCopy(tag: byte, blacklist: seq<byte>, global: seq<DhcpOption>, pool: seq<DhcpOption>)
    requires IsEligible(tag, blacklist, global, pool)
    ensures Configured(tag, global, pool).Some?
    ensures var o := CopyOption(Configured(tag, global, pool).value); o.tag == tag && IsCopy(o, blacklist, global, pool)
  {
    ConfiguredIs(tag, global, pool);
    assert Setting(pool, global, tag, Configured(tag, global, pool).value);
  }

  /** Copies of the configured options for the eligible tags. */
  ghost function Copies(tags: seq<byte>, blacklist: seq<byte>, global: seq<DhcpOption>, pool: seq<DhcpOption>): seq<DhcpOption> {
    if tags == [] then []
    else
      ConfiguredIs(tags[0], global, pool);
      (if IsEligible(tags[0], blacklist, global, pool) then [CopyOption(Configured(tags[0], global, pool).value)] else [])
      + Copies(tags[1..], blacklist, global, pool)
  }

  lemma {:induction false} CopiesAre(tags: seq<byte>, blacklist: seq<byte>, global: seq<DhcpOption>, pool: seq<DhcpOption>)
    ensures forall o :: o in Copies(tags, blacklist, global, pool) ==> IsCopy(o, blacklist, global, pool)
    ensures Tags(Copies(tags, blacklist, global, pool)) == Eligible(tags, blacklist, global, pool)
  {
    if tags != [] {
      CopiesAre(tags[1..], blacklist, global, pool);
      if IsEligible(tags[0], blacklist, global, pool) {
        ConfiguredCopy(tags[0], blacklist, global, pool);
      }
    }
  }

  lemma {:induction false} AddAllTwice(acc: seq<DhcpOption>, xs: seq<DhcpOption>, ys: seq<DhcpOption>)
    ensures AddAll(acc, xs + ys) == AddAll(AddAll(acc, xs), ys)
    decreases xs
  {
    if xs == [] {
      assert xs + ys == ys;
    } else {
      assert (xs + ys)[1..] == xs[1..] + ys;
      AddAllTwice(AddOption(acc, xs[0]), xs[1..], ys);
    }
  }

  lemma {:induction false} RequestedIsAddAll(dest: seq<DhcpOption>, tags: seq<byte>, blacklist: seq<byte>,
                                             global: seq<DhcpOption>, pool: seq<DhcpOption>)
    ensures AddRequested(dest, tags, blacklist, global, pool) == AddAll(dest, Copies(tags, blacklist, global, pool))
    decreases tags
  {
    if tags != [] {
      var tail := Copies(tags[1..], blacklist, global, pool);
      ConfiguredIs(tags[0], global, pool);
      if IsEligible(tags[0], blacklist, global, pool) {
        var o := CopyOption(Configured(tags[0], global, pool).value);
        assert ([o] + tail)[1..] == tail;
        RequestedIsAddAll(AddOption(dest, o), tags[1..], blacklist, global, pool);
      } else {
        assert [] + tail == tail;
        RequestedIsAddAll(dest, tags[1..], blacklist, global, pool);
      }
    }
  }

  /** Every tag is blacklisted or set for the pool or globally. */
  ghost predicate AllConfigured(tags: seq<byte>, blacklist: seq<byte>, global: seq<DhcpOption>, pool: seq<DhcpOption>) {
    forall k :: 0 <= k < |tags| ==> tags[k] in blacklist || HasSetting(pool, global, tags[k])
  }

  /** Required options: the same list, provided every tag that is not blacklisted is configured. */
  lemma {:induction false} RequiredIsAddAll(dest: seq<DhcpOption>, tags: seq<byte>, blacklist: seq<byte>,
                                            global: seq<DhcpOption>, pool: seq<DhcpOption>)
    ensures AddRequired(dest, tags, blacklist, global, pool) ==
            if AllConfigured(tags, blacklist, global, pool)
            then Some(AddAll(dest, Copies(tags, blacklist, global, pool))) else None
    decreases tags
  {
    if tags != [] {
      var tail := Copies(tags[1..], blacklist, global, pool);
      ConfiguredIs(tags[0], global, pool);
      assert forall k :: 1 <= k < |tags| ==> tags[k] == tags[1..][k - 1];
      if IsEligible(tags[0], blacklist, global, pool) {
        var o := CopyOption(Configured(tags[0], global, pool).value);
        assert ([o] + tail)[1..] == tail;
        RequiredIsAddAll(AddOption(dest, o), tags[1..], blacklist, global, pool);
      } else {
        assert [] + tail == tail;
        RequiredIsAddAll(dest, tags[1..], blacklist, global, pool);
      }
    }
  }

  lemma AllFromCopies(acc: seq<DhcpOption>, xs: seq<DhcpOption>, o: DhcpOption)
    requires o in AddAll(acc, xs)
    ensures o in acc || o in xs
    decreases xs
  {
    if xs != [] {
      AllFromCopies(AddOption(acc, xs[0]), xs[1..], o);
    }
  }

  /** The builder succeeds exactly when every required tag that is not blacklisted is configured. */
  lemma BuildSucceedsIff(requested: seq<byte>, required: seq<byte>, blacklist: seq<byte>,
                         global: seq<DhcpOption>, pool: seq<DhcpOption>, kind: byte)
    ensures Build(requested, required, blacklist, global, pool, kind).Some? <==>
            AllConfigured(UpToNul(required), UpToNul(blacklist), global, pool)
    ensures Build(requested, required, blacklist, global, pool, kind).Some? ==>
            Build(requested, required, blacklist, global, pool, kind).value ==
            AddAll([MessageTypeOption(kind)], Copies(UpToNul(required), UpToNul(blacklist), global, pool)
                                              + Copies(UpToNul(requested), UpToNul(blacklist), global, pool))
  {
    var black, must, may := UpToNul(blacklist), UpToNul(required), UpToNul(requested);
    var d0 := [MessageTypeOption(kind)];
    var xs, ys := Copies(must, black, global, pool), Copies(may, black, global, pool);
    RequiredIsAddAll(d0, must, black, global, pool);
    RequestedIsAddAll(AddAll(d0, xs), may, black, global, pool);
    AddAllTwice(d0, xs, ys);
  }

  lemma AfterFirst(first: DhcpOption, xs: seq<DhcpOption>, ys: seq<DhcpOption>)
    ensures var r := AddAll([first], xs + ys);
            && DistinctTags(r) && |r| > 0 && r[0] == first
            && Tags(r) == [first.tag] + FirstOccurrences(Tags(xs) + Tags(ys), {first.tag})
            && forall o :: o in r && o != first ==> o in xs || o in ys
  {
    AddAllDistinct([first], xs + ys);
    TagsAddAll([first], xs + ys);
    assert Tags(xs + ys) == Tags(xs) + Tags(ys);
    assert Tags([first]) == [first.tag] && TagSet([first]) == {first.tag};
    forall o | o in AddAll([first], xs + ys) && o != first ensures o in xs || o in ys {
      AllFromCopies([first], xs + ys, o);
    }
  }

  /**
   What a reply of type `kind` carries: option 53 with the type first, then the first occurrences of
   the tags of `must` and `may` that are set and not blacklisted, each a copy of the pool's first
   option with the tag, or of the first global one if the pool has none. All of `must` is set.
   */
  ghost predicate Contents(r: seq<DhcpOption>, kind: byte, must: seq<byte>, may: seq<byte>, black: seq<byte>,
                           global: seq<DhcpOption>, pool: seq<DhcpOption>) {
    && AllConfigured(must, black, global, pool)
    && r != [] && r[0] == DhcpOption(53, Numeric, 1, ZeroPadded([kind]))
    && Tags(r) == [53] + FirstOccurrences(Eligible(must + may, black, global, pool), {53})
    && DistinctTags(r)
    && forall i :: 0 < i < |r| ==> IsCopy(r[i], black, global, pool)
  }

  lemma BuildHasContents(requested: seq<byte>, required: seq<byte>, blacklist: seq<byte>,
                         global: seq<DhcpOption>, pool: seq<DhcpOption>, kind: byte)
    requires Build(requested, required, blacklist, global, pool, kind).Some?
    ensures Contents(Build(requested, required, blacklist, global, pool, kind).value,
                     kind, UpToNul(required), UpToNul(requested), UpToNul(blacklist), global, pool)
  {
    var black, must, may := UpToNul(blacklist), UpToNul(required), UpToNul(requested);
    var xs, ys := Copies(must, black, global, pool), Copies(may, black, global, pool);
    BuildSucceedsIff(requested, required, blacklist, global, pool, kind);
    CopiesAre(must, black, global, pool);
    CopiesAre(may, black, global, pool);
    EligibleTwice(must, may, black, global, pool);
    AfterFirst(MessageTypeOption(kind), xs, ys);
  }

  lemma SameCopy(o: DhcpOption, p: DhcpOption, black: seq<byte>, global: seq<DhcpOption>, pool: seq<DhcpOption>)
    requires IsCopy(o, black, global, pool) && IsCopy(p, black, global, pool) && o.tag == p.tag
    ensures o == p
  {
    ConfiguredIs(o.tag, global, pool);
  }

  /** Two lists with these contents are the same. */
  lemma ContentsUnique(r: seq<DhcpOption>, q: seq<DhcpOption>, kind: byte, must: seq<byte>, may: seq<byte>, black: seq<byte>,
                       global: seq<DhcpOption>, pool: seq<DhcpOption>)
    requires Contents(r, kind, must, may, black, global, pool) && Contents(q, kind, must, may, black, global, pool)
    ensures r == q
  {
    assert |r| == |Tags(r)| == |Tags(q)| == |q|;
    forall i | 0 <= i < |r| ensures r[i] == q[i] {
      if i > 0 {
        assert r[i].tag == Tags(r)[i] == Tags(q)[i] == q[i].tag;
        SameCopy(r[i], q[i], black, global, pool);
      }
    }
  }

  /** The builder is described exactly by the contents of what it builds; it fails exactly if there is no such list. */
  lemma BuildMeetsSpec(requested: seq<byte>, required: seq<byte>, blacklist: seq<byte>,
                       global: seq<DhcpOption>, pool: seq<DhcpOption>, kind: byte)
    ensures forall r :: Build(requested, required, blacklist, global, pool, kind) == Some(r) <==>
              Contents(r, kind, UpToNul(required), UpToNul(requested), UpToNul(blacklist), global, pool)
  {
    var built := Build(requested, required, blacklist, global, pool, kind);
    forall r ensures built == Some(r) <==>
        Contents(r, kind, UpToNul(required), UpToNul(requested), UpToNul(blacklist), global, pool)
    {
      BuildSucceedsIff(requested, required, blacklist, global, pool, kind);
      if built.Some? {
        BuildHasContents(requested, required, blacklist, global, pool, kind);
        if Contents(r, kind, UpToNul(required), UpToNul(requested), UpToNul(blacklist), global, pool) {
          ContentsUnique(r, built.value, kind, UpToNul(required), UpToNul(requested), UpToNul(blacklist), global, pool);
        }
      }
    }
  }

  /** A copy keeps tag and covered octets, and takes its type from the tag. */
  lemma CopyKeeps(o: DhcpOption)
    ensures var c := CopyOption(o);
            && c.tag == o.tag && c.length == o.length && c.kind == TagToType(o.tag)
            && (forall k :: 0 <= k < o.length ==> c.value[k] == o.value[k])
            && (forall k :: o.length <= k < OPTION_MAX_LENGTH ==> c.value[k] == 0)
  {
    var c := CopyOption(o);
    assert forall k :: 0 <= k < o.length ==> c.value[..o.length][k] == o.value[..o.length][k];
  }

  // ---------------------------------------------------------------- the loops

  /** The tags before the terminator, and the terminator. */
  lemma {:induction false} Terminator(tags: seq<byte>)
    requires 0 in tags
    ensures var n := |UpToNul(tags)|;
            n < |tags| && tags[n] == 0 && forall k :: 0 <= k < n ==> tags[k] == UpToNul(tags)[k] != 0
  {
    if tags[0] != 0 {
      assert tags == [tags[0]] + tags[1..];
      Terminator(tags[1..]);
    }
  }

  /** is_option_blacklisted. */
  method Blacklisted(tag: byte, blacklist: seq<byte>) returns (r: bool)
    requires 0 in blacklist
    ensures r <==> tag in UpToNul(blacklist)
  {
    ghost var tags := UpToNul(blacklist);
    Terminator(blacklist);
    var i := 0;
    while blacklist[i] != 0
      invariant i <= |tags| < |blacklist|
      invariant tag !in tags[..i]
      decreases |tags| - i
    {
      if blacklist[i] == tag {
        return true;
      }
      assert tags[..i + 1] == tags[..i] + [tags[i]];
      i := i + 1;
    }
    assert tags[..|tags|] == tags;
    return false;
  }

  /** The loop over the required tags. */
  method BuildRequired(first: DhcpOption, required: seq<byte>, blacklist: seq<byte>,
                       global: seq<DhcpOption>, pool: seq<DhcpOption>)
    returns (r: Option<seq<DhcpOption>>)
    requires 0 in required && 0 in blacklist
    ensures r == AddRequired([first], UpToNul(required), UpToNul(blacklist), global, pool)
  {
    ghost var black := UpToNul(blacklist);
    ghost var result := AddRequired([first], UpToNul(required), black, global, pool);
    var dest := [first];
    var i := 0;
    ghost var tags := UpToNul(required);
    Terminator(required);
    assert tags[0..] == tags;
    while required[i] != 0
      invariant i <= |tags| < |required|
      invariant AddRequired(dest, tags[i..], black, global, pool) == result
      decreases |tags| - i
    {
      assert tags[i..][1..] == tags[i + 1..];
      var skip := Blacklisted(required[i], blacklist);
      if !skip {
        var option := Configured(required[i], global, pool);
        if option.None? {
          return None;
        }
        dest := AddOption(dest, CopyOption(option.value));
      }
      i := i + 1;
    }
    r := Some(dest);
  }

  /** The loop over the requested tags. */
  method BuildRequested(built: seq<DhcpOption>, requested: seq<byte>, blacklist: seq<byte>,
                        global: seq<DhcpOption>, pool: seq<DhcpOption>)
    returns (dest: seq<DhcpOption>)
    requires 0 in requested && 0 in blacklist
    ensures dest == AddRequested(built, UpToNul(requested), UpToNul(blacklist), global, pool)
  {
    ghost var black := UpToNul(blacklist);
    ghost var result := AddRequested(built, UpToNul(requested), black, global, pool);
    dest := built;
    var i := 0;
    ghost var tags := UpToNul(requested);
    Terminator(requested);
    assert tags[0..] == tags;
    while requested[i] != 0
      invariant i <= |tags| < |requested|
      invariant AddRequested(dest, tags[i..], black, global, pool) == result
      decreases |tags| - i
    {
      assert tags[i..][1..] == tags[i + 1..];
      var skip := Blacklisted(requested[i], blacklist);
      var option := Configured(requested[i], global, pool);
      if !skip && option.Some? {
        dest := AddOption(dest, CopyOption(option.value));
      }
      i := i + 1;
    }
  }

  /** dhcp_option_build_required_options: the tag arrays are zero-terminated. */
  method BuildOptions(requested: seq<byte>, required: seq<byte>, blacklist: seq<byte>,
                      global: seq<DhcpOption>, pool: seq<DhcpOption>, kind: byte)
    returns (r: Option<seq<DhcpOption>>)
    requires 0 in requested && 0 in required && 0 in blacklist
    ensures r == Build(requested, required, blacklist, global, pool, kind)
  {
    r := BuildRequired(MessageTypeOption(kind), required, blacklist, global, pool);
    if r.Some? {
      var dest := BuildRequested(r.value, requested, blacklist, global, pool);
      r := Some(dest);
    }
  }
}
