/**
 The word index: a map from the id of every `WORD` block to its text. Blocks
 are visited in order and each assignment overwrites the previous one, so when
 two `WORD` blocks share an id the later one wins.
 */
module WordIndex {
  import opened Blocks

  /** Reading `block["Text"]` raises `KeyError` on a `WORD` block without text. */
  predicate WordsHaveText(blocks: seq<Block>) {
    forall i :: 0 <= i < |blocks| && IsWord(blocks[i]) ==> blocks[i].text.Some?
  }

  /** The ids of the `WORD` blocks of `blocks`. */
  function WordIds(blocks: seq<Block>): set<string> {
    set i | 0 <= i < |blocks| && IsWord(blocks[i]) :: blocks[i].id
  }

  /** No `WORD` block after index `i` has the id of block `i`. */
  predicate LastWithItsId(blocks: seq<Block>, i: int)
    requires 0 <= i < |blocks|
  {
    forall j :: i < j < |blocks| ==> !(IsWord(blocks[j]) && blocks[j].id == blocks[i].id)
  }

  lemma WordIdsSnoc(s: seq<Block>, b: Block)
    ensures WordIds(s + [b]) == if IsWord(b) then WordIds(s) + {b.id} else WordIds(s)
  {
    var t := s + [b];
    assert forall i :: 0 <= i < |s| ==> t[i] == s[i];
    assert t[|s|] == b;
  }

  lemma LastWithItsIdSnoc(s: seq<Block>, b: Block, i: int)
    requires 0 <= i < |s|
    ensures LastWithItsId(s + [b], i) <==> LastWithItsId(s, i) && !(IsWord(b) && b.id == s[i].id)
  {
    var t := s + [b];
    assert forall j :: 0 <= j < |s| ==> t[j] == s[j];
    assert t[|s|] == b;
  }

  /** `mapping` is the word index of `s`: keyed by its word ids, each holding the text of the last word with that id. */
  predicate Indexed(mapping: map<string, string>, s: seq<Block>) {
    && mapping.Keys == WordIds(s)
    && forall i :: 0 <= i < |s| && IsWord(s[i]) && s[i].text.Some? && LastWithItsId(s, i)
         ==> s[i].id in mapping && mapping[s[i].id] == s[i].text.value
  }

  /** One step of the loop: recording block `b` turns the index of `s` into the index of `s + [b]`. */
  lemma IndexedSnoc(mapping: map<string, string>, s: seq<Block>, b: Block)
    requires Indexed(mapping, s)
    requires IsWord(b) ==> b.text.Some?
    ensures Indexed(if IsWord(b) then mapping[b.id := b.text.value] else mapping, s + [b])
  {
    var t := s + [b];
    var next := if IsWord(b) then mapping[b.id := b.text.value] else mapping;
    WordIdsSnoc(s, b);
    forall i | 0 <= i < |t| && IsWord(t[i]) && t[i].text.Some? && LastWithItsId(t, i)
      ensures t[i].id in next && next[t[i].id] == t[i].text.value
    {
      if i < |s| {
        LastWithItsIdSnoc(s, b, i);
        assert t[i] == s[i];
      }
    }
  }

  method IdToWordMapping(blocks: seq<Block>) returns (mapping: map<string, string>)
    requires WordsHaveText(blocks)
    ensures |blocks| == 0 ==> mapping == map[]
    ensures mapping.Keys == WordIds(blocks)
    ensures forall i :: 0 <= i < |blocks| && IsWord(blocks[i]) && LastWithItsId(blocks, i)
              ==> mapping[blocks[i].id] == blocks[i].text.value
  {
    mapping := map[];
    var n := 0;
    while n < |blocks|
      invariant 0 <= n <= |blocks|
      invariant Indexed(mapping, blocks[..n])
    {
      var block := blocks[n];
      assert blocks[..n + 1] == blocks[..n] + [block];
      IndexedSnoc(mapping, blocks[..n], block);
      if IsWord(block) {
        mapping := mapping[block.id := block.text.value];
      }
      n := n + 1;
    }
    assert blocks[..n] == blocks;
  }
}
