/**
 * Reverse complement of the barcode panel (barcodes.py:79): each barcode is
 * read backwards with every base replaced by its Watson-Crick partner; the
 * panel keeps its length and order.
 */
module Dna {

  /**
   * The base-pairing partner: A and T pair, C and G pair. Every other
   * character, `N` among them, is its own complement.
   */
  function Complement(c: char): (r: char)
    ensures (c == 'A' <==> r == 'T') && (c == 'T' <==> r == 'A')
    ensures (c == 'C' <==> r == 'G') && (c == 'G' <==> r == 'C')
    ensures c !in "ACGT" ==> r == c
  {
    match c
    case 'A' => 'T'
    case 'T' => 'A'
    case 'C' => 'G'
    case 'G' => 'C'
    case _ => c
  }

  /** `str(Seq(s).reverse_complement())` */
  function ReverseComplement(s: string): (r: string)
    ensures |r| == |s|
    ensures forall i :: 0 <= i < |s| ==> r[i] == Complement(s[|s| - 1 - i])
  {
    if s == [] then [] else [Complement(s[|s| - 1])] + ReverseComplement(s[..|s| - 1])
  }

  /** `[str(Seq(x).reverse_complement()) for x in panel]` */
  function ReverseComplementPanel(panel: seq<string>): (r: seq<string>)
    ensures |r| == |panel|
    ensures forall i :: 0 <= i < |panel| ==> r[i] == ReverseComplement(panel[i])
  {
    seq(|panel|, i requires 0 <= i < |panel| => ReverseComplement(panel[i]))
  }

  /** Complementing twice gives the base back. */
  lemma ComplementInvolutive(c: char)
    ensures Complement(Complement(c)) == c
  {
  }

  /** Reverse-complementing a barcode twice gives the barcode back. */
  lemma ReverseComplementInvolutive(s: string)
    ensures ReverseComplement(ReverseComplement(s)) == s
  {
    var r := ReverseComplement(s);
    var rr := ReverseComplement(r);
    forall i | 0 <= i < |s| ensures rr[i] == s[i] {
      ComplementInvolutive(s[i]);
    }
  }

  /** Reverse-complementing the panel twice gives back the same panel, in the same order. */
  lemma ReverseComplementPanelInvolutive(panel: seq<string>)
    ensures ReverseComplementPanel(ReverseComplementPanel(panel)) == panel
  {
    var r := ReverseComplementPanel(ReverseComplementPanel(panel));
    forall i | 0 <= i < |panel| ensures r[i] == panel[i] {
      ReverseComplementInvolutive(panel[i]);
    }
  }
}
