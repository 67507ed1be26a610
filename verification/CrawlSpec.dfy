// Which documents a crawl puts into the index, and what the program assumes of
// a corpus.
module CrawlSpec {
  import opened ChainTable
  import opened WordSpec
  import opened FileParsing
  import opened DocTables
  import opened CorpusSpec
  import opened FileTree

  // --- What a sequence of visited files contributes. ---

  // The text of a file as ReadFileToString hands it over: up to the first NUL.
  function TextOf(contents: seq<Byte>): Text {
    CString(contents + [NUL])
  }

  ghost predicate Indexed(v: Visit) {
    v.contents.Some? && Indexable(TextOf(v.contents.value))
  }

  ghost function NamesOf(vs: seq<Visit>): seq<Word> {
    if vs == [] then []
    else NamesOf(vs[..|vs| - 1]) + if Indexed(vs[|vs| - 1]) then [vs[|vs| - 1].fpath] else []
  }

  ghost function TextsOf(vs: seq<Visit>): (texts: seq<Text>)
    ensures |texts| == |NamesOf(vs)|
  {
    if vs == [] then []
    else TextsOf(vs[..|vs| - 1]) + if Indexed(vs[|vs| - 1]) then [TextOf(vs[|vs| - 1].contents.value)] else []
  }

  lemma {:induction false} NamesConcatenate(us: seq<Visit>, vs: seq<Visit>)
    ensures NamesOf(us + vs) == NamesOf(us) + NamesOf(vs)
    decreases |vs|
  {
    hide Indexed;
    var all := us + vs;
    if vs == [] {
      assert all == us;
    } else {
      assert all[..|all| - 1] == us + vs[..|vs| - 1];
      NamesConcatenate(us, vs[..|vs| - 1]);
    }
  }

  lemma {:induction false} TextsConcatenate(us: seq<Visit>, vs: seq<Visit>)
    ensures TextsOf(us + vs) == TextsOf(us) + TextsOf(vs)
    decreases |vs|
  {
    hide TextOf, NamesOf, Indexable;
    var all := us + vs;
    if vs == [] {
      assert all == us;
    } else {
      assert all[..|all| - 1] == us + vs[..|vs| - 1];
      TextsConcatenate(us, vs[..|vs| - 1]);
    }
  }

  lemma VisitsConcatenate(us: seq<Visit>, vs: seq<Visit>)
    ensures NamesOf(us + vs) == NamesOf(us) + NamesOf(vs)
    ensures TextsOf(us + vs) == TextsOf(us) + TextsOf(vs)
  {
    NamesConcatenate(us, vs);
    TextsConcatenate(us, vs);
  }

  // What the whole program assumes: few enough documents, words whose hashes
  // survive hasKey and do not collide, and names none of which is taken for an
  // earlier one.
  ghost predicate CorpusFits(hash: Word -> Key, names: seq<Word>, docs: seq<Text>) {
    && |names| == |docs| < TWO_31
    && GoodOn(hash, AllWords(docs))
    && NamesApart(hash, names)
  }

  ghost predicate NamesApart(hash: Word -> Key, names: seq<Word>) {
    forall i: nat | i < |names| :: FoundId(hash, names[..i], names[i]) == 0
  }

  ghost predicate RunFits(hash: Word -> Key, names: seq<Word>, docs: seq<Text>, vs: seq<Visit>) {
    CorpusFits(hash, names + NamesOf(vs), docs + TextsOf(vs))
  }

  lemma RunSplits(hash: Word -> Key, names: seq<Word>, docs: seq<Text>, us: seq<Visit>, vs: seq<Visit>)
    requires |names| == |docs| && RunFits(hash, names, docs, us + vs)
    ensures RunFits(hash, names, docs, us)
    ensures RunFits(hash, names + NamesOf(us), docs + TextsOf(us), vs)
  {
    hide Survives, GoodOn, AllWords, NamesApart, NamesOf, TextsOf, CorpusFits;
    VisitsConcatenate(us, vs);
    assert (names + NamesOf(us)) + NamesOf(vs) == names + NamesOf(us + vs);
    assert (docs + TextsOf(us)) + TextsOf(vs) == docs + TextsOf(us + vs);
    PrefixFits(hash, names + NamesOf(us), docs + TextsOf(us), NamesOf(vs), TextsOf(vs));
  }

  lemma PrefixFits(hash: Word -> Key, names: seq<Word>, docs: seq<Text>, names': seq<Word>, docs': seq<Text>)
    requires |names| == |docs| && |names'| == |docs'| && CorpusFits(hash, names + names', docs + docs')
    ensures CorpusFits(hash, names, docs)
  {
    hide Survives, WordsIn, FoundId;
    assert forall i: nat | i < |names| :: (names + names')[..i] == names[..i] && (names + names')[i] == names[i];
    forall w | w in AllWords(docs)
      ensures w in AllWords(docs + docs')
    {
      var i :| 0 <= i < |docs| && w in WordsIn(docs[i]);
      assert (docs + docs')[i] == docs[i];
    }
  }

  // The run up to item i of a directory, and then item i itself, both fit.
  lemma {:induction false} ItemFits(hash: Word -> Key, names: seq<Word>, docs: seq<Text>,
                                    dirpath: Word, d: seq<Entry>, items: seq<Item>, i: nat)
    requires |names| == |docs| && dirpath != [] && ItemsFrom(dirpath, d, items) && i < |items|
    requires RunFits(hash, names, docs, VisitItems(dirpath, d, items))
    ensures var us, vs := VisitItems(dirpath, d, items[..i]), ItemVisits(dirpath, d, items[i]);
            && RunFits(hash, names + NamesOf(us), docs + TextsOf(us), vs)
            && NamesOf(VisitItems(dirpath, d, items[..i + 1])) == NamesOf(us) + NamesOf(vs)
            && TextsOf(VisitItems(dirpath, d, items[..i + 1])) == TextsOf(us) + TextsOf(vs)
    decreases |items|
  {
    hide RunFits, NamesOf, TextsOf, ItemVisits, ItemFrom;
    var n := |items| - 1;
    var us, vs := VisitItems(dirpath, d, items[..n]), ItemVisits(dirpath, d, items[n]);
    RunSplits(hash, names, docs, us, vs);
    if i < n {
      ItemFits(hash, names, docs, dirpath, d, items[..n], i);
      assert items[..n][..i] == items[..i] && items[..n][..i + 1] == items[..i + 1];
    } else {
      VisitsConcatenate(us, vs);
      assert items[..i + 1] == items;
    }
  }
}
