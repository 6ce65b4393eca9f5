/** Lists of options built with dhcp_option_add: the first option with a tag wins. */
module OptionLists {
  import opened Words
  import opened DhcpOptions

  ghost predicate DistinctTags(options: seq<DhcpOption>) {
    forall i, j :: 0 <= i < j < |options| ==> options[i].tag != options[j].tag
  }

  /** dhcp_option_add on every option in turn. */
  function AddAll(acc: seq<DhcpOption>, options: seq<DhcpOption>): seq<DhcpOption>
    decreases options
  {
    if options == [] then acc else AddAll(AddOption(acc, options[0]), options[1..])
  }

  lemma {:induction false} RetrieveAppend(xs: seq<DhcpOption>, ys: seq<DhcpOption>, tag: byte)
    ensures Retrieve(xs + ys, tag) == if Retrieve(xs, tag).Some? then Retrieve(xs, tag) else Retrieve(ys, tag)
  {
    if xs == [] {
      assert xs + ys == ys;
    } else {
      assert (xs + ys)[1..] == xs[1..] + ys;
      RetrieveAppend(xs[1..], ys, tag);
    }
  }

  /** Lookup in the result is lookup in the accumulator followed by the list. */
  lemma {:induction false} RetrieveAddAll(acc: seq<DhcpOption>, options: seq<DhcpOption>, tag: byte)
    ensures Retrieve(AddAll(acc, options), tag) == Retrieve(acc + options, tag)
    decreases options
  {
    if options == [] {
      assert acc + options == acc;
    } else {
      var o, rest := options[0], options[1..];
      RetrieveAddAll(AddOption(acc, o), rest, tag);
      RetrieveAppend(AddOption(acc, o), rest, tag);
      RetrieveAppend(acc, [o], tag);
      RetrieveAppend(acc, options, tag);
    }
  }

  lemma {:induction false} AddAllDistinct(acc: seq<DhcpOption>, options: seq<DhcpOption>)
    requires DistinctTags(acc)
    ensures DistinctTags(AddAll(acc, options)) && acc <= AddAll(acc, options)
    decreases options
  {
    if options != [] {
      AddAllDistinct(AddOption(acc, options[0]), options[1..]);
    }
  }

  /** Without repeated tags nothing is dropped. */
  lemma {:induction false} AddAllAppends(acc: seq<DhcpOption>, options: seq<DhcpOption>)
    requires DistinctTags(acc + options)
    ensures AddAll(acc, options) == acc + options
    decreases options
  {
    if options == [] {
      assert acc + options == acc;
    } else {
      var o, rest := options[0], options[1..];
      assert (acc + options)[|acc|] == o;
      assert forall x :: x in acc ==> x.tag != o.tag by {
        forall x | x in acc ensures x.tag != o.tag {
          var k :| 0 <= k < |acc| && acc[k] == x;
          assert (acc + options)[k] == x;
        }
      }
      assert acc + [o] + rest == acc + options;
      AddAllAppends(acc + [o], rest);
    }
  }

  // ---------------------------------------------------------------- order of the tags

  function Tags(options: seq<DhcpOption>): (r: seq<byte>)
    ensures |r| == |options| && forall i :: 0 <= i < |r| ==> r[i] == options[i].tag
  {
    seq(|options|, i requires 0 <= i < |options| => options[i].tag)
  }

  /** A list of tags without those of `seen`, and without repetitions. */
  function FirstOccurrences(tags: seq<byte>, seen: set<byte>): seq<byte> {
    if tags == [] then []
    else if tags[0] in seen then FirstOccurrences(tags[1..], seen)
    else [tags[0]] + FirstOccurrences(tags[1..], seen + {tags[0]})
  }

  function TagSet(options: seq<DhcpOption>): set<byte> {
    set o | o in options :: o.tag
  }

  /** The tags of the result, in order: those there already, then the first occurrences of new ones. */
  lemma {:induction false} TagsAddAll(acc: seq<DhcpOption>, options: seq<DhcpOption>)
    ensures Tags(AddAll(acc, options)) == Tags(acc) + FirstOccurrences(Tags(options), TagSet(acc))
    decreases options
  {
    if options != [] {
      var o, rest := options[0], options[1..];
      assert Tags(options)[0] == o.tag && Tags(options)[1..] == Tags(rest);
      TagsAddAll(AddOption(acc, o), rest);
      if o.tag in TagSet(acc) {
        assert Retrieve(acc, o.tag).Some?;
      } else {
        assert Retrieve(acc, o.tag).None?;
        assert Tags(acc + [o]) == Tags(acc) + [o.tag];
        assert TagSet(acc + [o]) == TagSet(acc) + {o.tag};
      }
    }
  }

  // ---------------------------------------------------------------- positions

  /** `x` is the first option with its tag. */
  ghost predicate FirstWith(options: seq<DhcpOption>, tag: byte, x: DhcpOption) {
    exists k :: 0 <= k < |options| && options[k] == x && x.tag == tag && forall j :: 0 <= j < k ==> options[j].tag != tag
  }

  ghost predicate Occurs(options: seq<DhcpOption>, tag: byte) {
    exists k :: 0 <= k < |options| && options[k].tag == tag
  }

  lemma {:induction false} RetrieveIs(options: seq<DhcpOption>, tag: byte)
    ensures forall x :: FirstWith(options, tag, x) <==> Retrieve(options, tag) == Some(x)
    ensures Occurs(options, tag) <==> Retrieve(options, tag).Some?
  {
    if options != [] {
      var rest := options[1..];
      RetrieveIs(rest, tag);
      forall x ensures FirstWith(options, tag, x) <==> Retrieve(options, tag) == Some(x) {
        if options[0].tag == tag {
          assert FirstWith(options, tag, options[0]);
        } else {
          FirstWithLater(options, tag, x);
        }
      }
      if Occurs(rest, tag) {
        var k :| 0 <= k < |rest| && rest[k].tag == tag;
        assert options[k + 1].tag == tag;
      }
      if Occurs(options, tag) && options[0].tag != tag {
        var k :| 0 <= k < |options| && options[k].tag == tag;
        assert rest[k - 1].tag == tag;
      }
    }
  }

  lemma FirstWithLater(options: seq<DhcpOption>, tag: byte, x: DhcpOption)
    requires options != [] && options[0].tag != tag
    ensures FirstWith(options, tag, x) <==> FirstWith(options[1..], tag, x)
  {
    var rest := options[1..];
    if FirstWith(options, tag, x) {
      var k :| 0 <= k < |options| && options[k] == x && x.tag == tag && forall j :: 0 <= j < k ==> options[j].tag != tag;
      assert rest[k - 1] == x;
    }
    if FirstWith(rest, tag, x) {
      var k :| 0 <= k < |rest| && rest[k] == x && x.tag == tag && forall j :: 0 <= j < k ==> rest[j].tag != tag;
      assert options[k + 1] == x && forall j :: 1 <= j < k + 1 ==> options[j] == rest[j - 1];
    }
  }

  /** The option that counts for a pool: the pool's own before the global one. */
  ghost predicate Setting(pool: seq<DhcpOption>, global: seq<DhcpOption>, tag: byte, x: DhcpOption) {
    FirstWith(pool, tag, x) || (!Occurs(pool, tag) && FirstWith(global, tag, x))
  }

  ghost predicate HasSetting(pool: seq<DhcpOption>, global: seq<DhcpOption>, tag: byte) {
    Occurs(pool, tag) || Occurs(global, tag)
  }
}
