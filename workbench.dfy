/** The prompt workbench: a list of prompt blocks typed into an input
    field, a selection of block ids, and the text the copy button puts on the
    clipboard. */
module Workbench {
  import opened StorageTypes
  import opened Text
  import opened Lists
  import App

  /** 'tag' blocks belong to drawing prompts, 'text' blocks to LLM prompts. */
  datatype BlockType = TagBlock | TextBlock

  datatype Block = Block(id: string, content: string, kind: BlockType)

  function BlockId(b: Block): string {
    b.id
  }

  function KindFor(mode: App.Mode): BlockType {
    if mode == App.Drawing then TagBlock else TextBlock
  }

  /** The keys that commit the input: Enter and the comma. */
  predicate IsCommitKey(key: string) {
    key == "Enter" || key == ","
  }

  /** handleInputKeyDown on the block list: a commit key with input that is
      not blank appends one block holding the trimmed input, typed by the
      mode; anything else adds nothing (None). `freshId` stands for
      `Date.now().toString()`. */
  function BlocksAfterKey(blocks: seq<Block>, input: string, mode: App.Mode, key: string,
                          freshId: string): (r: Option<seq<Block>>)
    ensures r.Some? <==> IsCommitKey(key) && !IsBlank(input)
    ensures r.Some? ==> |r.value| == |blocks| + 1 && r.value[..|blocks|] == blocks
  {
    if IsCommitKey(key) && !IsBlank(input) then
      Some(blocks + [Block(freshId, Trim(input), KindFor(mode))])
    else None
  }

  /** The block a commit adds holds text that is not empty, has no
      whitespace at either end, and is typed 'tag' exactly in drawing mode. */
  lemma NewBlockShape(blocks: seq<Block>, input: string, mode: App.Mode, key: string, freshId: string)
    requires IsCommitKey(key) && !IsBlank(input)
    ensures var b := BlocksAfterKey(blocks, input, mode, key, freshId).value[|blocks|];
      && b.id == freshId
      && b.content == Trim(input)
      && b.content != ""
      && !IsBlank(b.content)
      && Trim(b.content) == b.content
      && !IsSpace(b.content[0]) && !IsSpace(b.content[|b.content| - 1])
      && (b.kind == TagBlock <==> mode == App.Drawing)
  {
    NotBlankTrimNonEmpty(input);
    TrimIdempotent(input);
    TrimShape(input);
  }

  /** The contents of the blocks, in order. */
  function Contents(blocks: seq<Block>): (r: seq<string>)
    ensures |r| == |blocks|
  {
    seq(|blocks|, i requires 0 <= i < |blocks| => blocks[i].content)
  }

  function Separator(mode: App.Mode): string {
    if mode == App.Drawing then ", " else "\n\n"
  }

  /** The text handleCopy writes to the clipboard. */
  function CopyText(blocks: seq<Block>, mode: App.Mode): string {
    Join(Contents(blocks), Separator(mode))
  }

  /** The copy text holds every block's text in order with one separator
      between neighbours: its length is the texts' lengths plus one separator
      per gap, and it is empty without blocks. */
  lemma CopyTextLength(blocks: seq<Block>, mode: App.Mode)
    ensures |blocks| == 0 ==> CopyText(blocks, mode) == ""
    ensures |blocks| == 1 ==> CopyText(blocks, mode) == blocks[0].content
    ensures |blocks| > 0 ==>
      |CopyText(blocks, mode)| == TotalLength(Contents(blocks)) + (|blocks| - 1) * |Separator(mode)|
  {
    if |blocks| > 0 {
      JoinLength(Contents(blocks), Separator(mode));
    }
  }

  /** Committing input extends the copy text by the separator and the trimmed
      input, or makes it the trimmed input when there were no blocks. */
  lemma CommitExtendsCopy(blocks: seq<Block>, input: string, mode: App.Mode, key: string, freshId: string)
    requires IsCommitKey(key) && !IsBlank(input)
    ensures var after := CopyText(BlocksAfterKey(blocks, input, mode, key, freshId).value, mode);
      && (blocks == [] ==> after == Trim(input))
      && (blocks != [] ==> after == CopyText(blocks, mode) + Separator(mode) + Trim(input))
  {
    var r := BlocksAfterKey(blocks, input, mode, key, freshId).value;
    assert Contents(r) == Contents(blocks) + [Trim(input)];
    if blocks != [] {
      JoinSnoc(Contents(blocks), Trim(input), Separator(mode));
    }
  }

  /** `blocks.filter(b => b.id !== id)`. */
  function WithoutBlock(blocks: seq<Block>, id: string): (r: seq<Block>)
    ensures |r| <= |blocks|
  {
    RemoveKey(blocks, BlockId, id)
  }

  /** Removing by id drops every block with that id and only those; a block
      count with that id of zero leaves the list as it was. */
  lemma RemoveBlockDropsId(blocks: seq<Block>, id: string)
    ensures forall b :: b in WithoutBlock(blocks, id) <==> b in blocks && b.id != id
    ensures |WithoutBlock(blocks, id)| == |blocks| - CountKey(blocks, BlockId, id)
    ensures (forall i :: 0 <= i < |blocks| ==> blocks[i].id != id) ==> WithoutBlock(blocks, id) == blocks
  {
    RemoveKeyCount(blocks, BlockId, id);
    if forall i :: 0 <= i < |blocks| ==> blocks[i].id != id {
      CountKeyZero(blocks, id);
    }
  }

  lemma {:induction false} CountKeyZero(blocks: seq<Block>, id: string)
    requires forall i :: 0 <= i < |blocks| ==> blocks[i].id != id
    ensures CountKey(blocks, BlockId, id) == 0
    decreases |blocks|
  {
    if |blocks| > 0 {
      CountKeyZero(blocks[..|blocks| - 1], id);
    }
  }

  /** Removing a block just added by a commit, with a fresh id, restores the
      list. */
  lemma CommitThenRemove(blocks: seq<Block>, input: string, mode: App.Mode, key: string, freshId: string)
    requires IsCommitKey(key) && !IsBlank(input)
    requires forall i :: 0 <= i < |blocks| ==> blocks[i].id != freshId
    ensures WithoutBlock(BlocksAfterKey(blocks, input, mode, key, freshId).value, freshId) == blocks
  {
    RemoveBlockDropsId(blocks, freshId);
  }

  /** The workbench: the block list its parent holds (set through
      onBlocksChange), the input field and the selected ids. */
  class Panel {
    var blocks: seq<Block>
    var inputValue: string
    var selected: set<string>

    constructor (blocks: seq<Block>)
      ensures this.blocks == blocks && inputValue == "" && selected == {}
    {
      this.blocks := blocks;
      inputValue := "";
      selected := {};
    }

    /** handleInputKeyDown: commit a block and clear the field, or leave
        everything as it is. */
    method HandleInputKeyDown(key: string, mode: App.Mode, freshId: string)
      modifies this
      ensures var r := BlocksAfterKey(old(blocks), old(inputValue), mode, key, freshId);
        && (r.Some? ==> blocks == r.value && inputValue == "")
        && (r.None? ==> blocks == old(blocks) && inputValue == old(inputValue))
      ensures selected == old(selected)
    {
      if key == "Enter" || key == "," {
        var content := Trim(inputValue);
        if content != "" {
          var newBlock := Block(freshId, content, KindFor(mode));
          blocks := blocks + [newBlock];
          inputValue := "";
        }
      }
    }

    /** handleBlockClick: the id joins or leaves the selection. */
    method HandleBlockClick(id: string)
      modifies this
      ensures selected == Toggle(old(selected), id)
      ensures id in selected <==> id !in old(selected)
      ensures blocks == old(blocks) && inputValue == old(inputValue)
    {
      var newSelected := selected;
      if id in newSelected {
        newSelected := newSelected - {id};
      } else {
        newSelected := newSelected + {id};
      }
      selected := newSelected;
    }

    /** handleRemoveBlock: the blocks with that id go, and so does the id
        from the selection. */
    method HandleRemoveBlock(id: string)
      modifies this
      ensures blocks == WithoutBlock(old(blocks), id)
      ensures selected == old(selected) - {id}
      ensures inputValue == old(inputValue)
    {
      blocks := RemoveKey(blocks, BlockId, id);
      selected := selected - {id};
    }

    /** handleCopy: the clipboard text is the block texts in order, joined by
        ", " in drawing mode and by a blank line otherwise. */
    method HandleCopy(mode: App.Mode) returns (text: string)
      ensures mode == App.Drawing ==> text == Join(Contents(blocks), ", ")
      ensures mode != App.Drawing ==> text == Join(Contents(blocks), "\n\n")
      ensures |blocks| == 0 ==> text == ""
      ensures |blocks| == 1 ==> text == blocks[0].content
      ensures |blocks| > 0 ==>
        |text| == TotalLength(Contents(blocks)) + (|blocks| - 1) * |Separator(mode)|
    {
      text := CopyText(blocks, mode);
      CopyTextLength(blocks, mode);
    }

    /** handleClear: no blocks and nothing selected. */
    method HandleClear()
      modifies this
      ensures blocks == [] && selected == {}
      ensures inputValue == old(inputValue)
    {
      blocks := [];
      selected := {};
    }
  }
}
