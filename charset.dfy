/**
 * The character table of the OCR model: a sparse map from an output class
 * index of the network to the glyph that class stands for. Class 0 is the
 * CTC blank and has no glyph; every index the table does not list yields the
 * empty string, as `CHARSET[index] || ''` does in the script.
 */
module Charset {
  import opened Wrappers

  /** The class-index -> glyph table, one case per entry, in the order the script lists it. */
  function Lookup(index: int): Option<char> {
    match index
    case 13 => Some('6')
    case 55 => Some('f')
    case 209 => Some('p')
    case 210 => Some('L')
    case 297 => Some('Y')
    case 306 => Some('w')
    case 309 => Some('3')
    case 311 => Some('F')
    case 320 => Some('m')
    case 521 => Some('X')
    case 598 => Some('G')
    case 689 => Some('x')
    case 782 => Some('i')
    case 897 => Some('T')
    case 901 => Some('N')
    case 1072 => Some('v')
    case 1150 => Some('c')
    case 1204 => Some('B')
    case 1503 => Some('n')
    case 1849 => Some('Q')
    case 1965 => Some('H')
    case 2113 => Some('K')
    case 2185 => Some('W')
    case 2341 => Some('P')
    case 2376 => Some('r')
    case 2457 => Some('l')
    case 2547 => Some('E')
    case 2621 => Some('Z')
    case 2714 => Some('s')
    case 2851 => Some('2')
    case 3073 => Some('z')
    case 3128 => Some('D')
    case 3157 => Some('O')
    case 3606 => Some('4')
    case 4018 => Some('1')
    case 4102 => Some('t')
    case 4393 => Some('b')
    case 4429 => Some('o')
    case 4588 => Some('u')
    case 4725 => Some('9')
    case 4730 => Some('j')
    case 4733 => Some('0')
    case 4919 => Some('8')
    case 5223 => Some('5')
    case 5428 => Some('e')
    case 5461 => Some('A')
    case 5629 => Some('R')
    case 5690 => Some('g')
    case 5737 => Some('k')
    case 5855 => Some('S')
    case 6554 => Some('I')
    case 6794 => Some('7')
    case 6810 => Some('d')
    case 6887 => Some('V')
    case 7216 => Some('J')
    case 7266 => Some('a')
    case 7412 => Some('h')
    case 7576 => Some('q')
    case 7712 => Some('U')
    case 7844 => Some('M')
    case 7877 => Some('y')
    case 7961 => Some('C')
    case 1151 => Some('c')
    case _ => None
  }

  /** The blank class of Connectionist Temporal Classification. */
  const Blank: nat := 0

  /** The glyph emitted for a class: one character when the table maps it, none otherwise. */
  function Glyph(index: int): (g: string)
    ensures |g| <= 1
    ensures |g| == 1 <==> Lookup(index).Some?
    ensures Lookup(index).Some? ==> g[0] == Lookup(index).value
  {
    match Lookup(index)
    case Some(c) => [c]
    case None => ""
  }

  predicate IsAlphanumeric(c: char) {
    ('0' <= c <= '9') || ('a' <= c <= 'z') || ('A' <= c <= 'Z')
  }

  /** The blank class emits nothing, two classes share the glyph 'c', every glyph is a digit or a letter. */
  lemma TableFacts()
    ensures Glyph(Blank) == ""
    ensures Glyph(1150) == Glyph(1151) == "c"
    ensures forall i :: Lookup(i).Some? ==> IsAlphanumeric(Lookup(i).value)
  {
  }
}
