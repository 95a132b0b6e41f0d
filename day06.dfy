/**
 * POST /6: counting elves and shelves in a text (src/day_06.rs).
 */
module ElfCount {
  import Text

  const ELF: string := "elf"
  const SHELF: string := "shelf"
  const ELF_ON_A_SHELF: string := "elf on a shelf"

  datatype Answer = Answer(elf: int, elfOnAShelf: int, shelfWithNoElf: int)

  /**
   * The text after cutting out the leftmost "elf on a shelf" again and again until
   * none is left, with the number of cuts made.
   */
  function StripShelves(s: string): (r: (nat, string))
    ensures !Text.Contains(r.1, ELF_ON_A_SHELF)
    ensures |r.1| + |ELF_ON_A_SHELF| * r.0 == |s|
    decreases |s|
  {
    assert |ELF_ON_A_SHELF| == 14;
    if Text.Contains(s, ELF_ON_A_SHELF) then
      var next := StripShelves(Text.RemoveFirst(s, ELF_ON_A_SHELF));
      (next.0 + 1, next.1)
    else (0, s)
  }

  /** The number of cuts never exceeds a fourteenth of the text's length; a text without the phrase is left alone. */
  lemma ShelfBound(s: string)
    ensures |ELF_ON_A_SHELF| * StripShelves(s).0 <= |s|
    ensures !Text.Contains(s, ELF_ON_A_SHELF) ==> StripShelves(s) == (0, s)
  {
  }

  /** The `" "`-separated words of `s` that contain `p`. */
  function WordsContaining(s: string, p: string): nat {
    Text.CountContaining(Text.Split(s, ' '), p)
  }

  /** `day06_post`: the word count, then the removal loop, then the word count of what is left. */
  method Day06Post(text: string) returns (answer: Answer)
    ensures answer.elf == WordsContaining(text, ELF)
    ensures answer.elfOnAShelf == StripShelves(text).0
    ensures answer.shelfWithNoElf == WordsContaining(StripShelves(text).1, SHELF)
    ensures !Text.Contains(StripShelves(text).1, ELF_ON_A_SHELF)
  {
    var elfs := WordsContaining(text, ELF);
    var filterText := text;
    var elfShelf := 0;
    while Text.Find(filterText, ELF_ON_A_SHELF).Some?
      invariant StripShelves(filterText).0 + elfShelf == StripShelves(text).0
      invariant StripShelves(filterText).1 == StripShelves(text).1
      decreases |filterText|
    {
      filterText := Text.RemoveFirst(filterText, ELF_ON_A_SHELF);
      elfShelf := elfShelf + 1;
    }
    var shelfNoElf := WordsContaining(filterText, SHELF);
    answer := Answer(elfs, elfShelf, shelfNoElf);
  }
}
