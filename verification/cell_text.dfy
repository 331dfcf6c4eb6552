/**
 The text of a cell. The renderer walks the cell's `Relationships` in order;
 for each group it looks every id up in the word index (a missing id raises
 `KeyError`) and sets the text to the words joined by one space, so each group
 overwrites the text of the one before and the last group wins.
 */
module CellText {
  import opened Blocks
  import opened Strings

  /** Every id named by any group is a key of the word index. */
  predicate IdsKnown(rels: seq<Relationship>, words: map<string, string>) {
    forall rel | rel in rels :: forall id | id in rel.ids :: id in words
  }

  /** `[id_to_word_mapping[id_] for id_ in ids]`. */
  function Lookup(ids: seq<string>, words: map<string, string>): seq<string>
    requires forall id | id in ids :: id in words
  {
    seq(|ids|, i requires 0 <= i < |ids| => words[ids[i]])
  }

  /** `" ".join(words)` for one relationship group. */
  function GroupText(ids: seq<string>, words: map<string, string>): string
    requires forall id | id in ids :: id in words
  {
    Join(Lookup(ids, words), ' ')
  }

  /** The loop over the groups, `acc` holding the text set so far. */
  function ContentAfter(rels: seq<Relationship>, words: map<string, string>, acc: string): string
    requires IdsKnown(rels, words)
    decreases |rels|
  {
    if |rels| == 0 then acc
    else
      assert forall rel | rel in rels[1..] :: rel in rels;
      ContentAfter(rels[1..], words, GroupText(rels[0].ids, words))
  }

  /** The text of a cell: empty when it has no relationship groups. */
  function CellContent(cell: Block, words: map<string, string>): string
    requires IdsKnown(RelationshipsOf(cell), words)
  {
    ContentAfter(RelationshipsOf(cell), words, "")
  }

  /** Only the last group counts: the loop's result is its text, or the start value when there is none. */
  lemma {:induction false} ContentIsLastGroup(rels: seq<Relationship>, words: map<string, string>, acc: string)
    requires IdsKnown(rels, words)
    ensures |rels| == 0 ==> ContentAfter(rels, words, acc) == acc
    ensures |rels| > 0 ==> ContentAfter(rels, words, acc) == GroupText(rels[|rels| - 1].ids, words)
    decreases |rels|
  {
    if |rels| > 1 {
      assert forall rel | rel in rels[1..] :: rel in rels;
      ContentIsLastGroup(rels[1..], words, GroupText(rels[0].ids, words));
      assert rels[1..][|rels[1..]| - 1] == rels[|rels| - 1];
    }
  }

  /**
   When the last group names at least one word and no word contains a space,
   splitting the cell text on spaces gives back exactly the words of the last
   group, in order.
   */
  lemma CellContentWords(cell: Block, words: map<string, string>)
    requires IdsKnown(RelationshipsOf(cell), words)
    requires |RelationshipsOf(cell)| > 0
    requires var last := RelationshipsOf(cell)[|RelationshipsOf(cell)| - 1];
             |last.ids| > 0 && forall id | id in last.ids :: ' ' !in words[id]
    ensures var last := RelationshipsOf(cell)[|RelationshipsOf(cell)| - 1];
            Split(CellContent(cell, words), ' ') == Lookup(last.ids, words)
  {
    var rels := RelationshipsOf(cell);
    var last := rels[|rels| - 1];
    ContentIsLastGroup(rels, words, "");
    var ws := Lookup(last.ids, words);
    forall i | 0 <= i < |ws| ensures ' ' !in ws[i] {
      assert last.ids[i] in last.ids;
    }
    SplitJoin(ws, ' ');
  }
}
