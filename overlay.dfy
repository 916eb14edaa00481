/** The image overlay of `_add_images_to_pdf`: the page is divided into a
    grid of 25 columns by 35 rows numbered from 1, left to right and top to
    bottom; each document stamps images at positions computed from grid
    cells, and the overlay pages are merged onto the rendered pages in
    order. Lengths are millimetres; `Mm` converts them to the points of the
    drawing canvas. Image files are known only by their pixel size, which is
    a parameter (`None` where opening the file fails). */
module Overlay {
  import opened Wrappers
  import Documents

  const Columns: int := 25
  const GridRows: int := 35
  /** An A4 page. */
  const PageWidth: real := 210.0
  const PageHeight: real := 297.0
  const CellWidth: real := PageWidth / 25.0
  const CellHeight: real := PageHeight / 35.0
  /** Points per millimetre. */
  const Mm: real := 72.0 / 25.4
  /** Millimetres per pixel at 96 dots per inch. */
  const PixelMm: real := 0.264583

  // ---------------------------------------------------------------- grid cells

  /** `(cell - 1) // 25`: the divisor is positive, so Dafny's division is
      Python's floor division. */
  function CellRow(cell: int): int
  {
    (cell - 1) / Columns
  }

  /** `(cell - 1) % 25`. */
  function CellCol(cell: int): int
  {
    (cell - 1) % Columns
  }

  /** The cell in row `row` and column `col`, both from 0. */
  function CellAt(row: int, col: int): int
  {
    row * Columns + col + 1
  }

  /** Every cell number from 1 has a row and a column that give it back;
      the rows of 1..875 are those of the page, so on the page the
      numbering is a bijection onto the grid positions. */
  lemma CellNumbering(cell: int)
    requires 1 <= cell
    ensures 0 <= CellRow(cell) && 0 <= CellCol(cell) < Columns
    ensures cell <= Columns * GridRows ==> CellRow(cell) < GridRows
    ensures CellAt(CellRow(cell), CellCol(cell)) == cell
  {
  }

  lemma CellPosition(row: int, col: int)
    requires 0 <= row < GridRows && 0 <= col < Columns
    ensures CellRow(CellAt(row, col)) == row && CellCol(CellAt(row, col)) == col
    ensures 1 <= CellAt(row, col) <= Columns * GridRows
  {
  }

  /** Centre of a cell, in millimetres from the bottom-left corner (the
      canvas origin), as the source computes it for cells 590 and 593. */
  function CentreX(cell: int): real
  {
    (CellCol(cell) as real + 0.5) * CellWidth
  }

  function CentreY(cell: int): real
  {
    PageHeight - (CellRow(cell) as real + 0.5) * CellHeight
  }

  /** Every cell's centre lies across the page and below its top edge, and
      the centre of a cell in 1..875 lies above its bottom edge too. */
  lemma CentreOnPage(cell: int)
    requires 1 <= cell
    ensures 0.0 < CentreX(cell) < PageWidth && CentreY(cell) < PageHeight
    ensures cell <= Columns * GridRows ==> 0.0 < CentreY(cell)
  {
    CellNumbering(cell);
  }

  // ---------------------------------------------------------------- placements

  datatype Image = Company | Seal | Signature | Logo

  /** Width and height of an image file, in pixels. */
  datatype Pixels = Pixels(width: nat, height: nat)

  /** The image files' sizes; `None` where `Image.open` raises. */
  datatype ImageFiles = ImageFiles(company: Option<Pixels>, seal: Option<Pixels>,
                                   signature: Option<Pixels>, logo: Option<Pixels>)

  /** One `drawImage` call, in points. */
  datatype Placement = Placement(image: Image, x: real, y: real, width: real, height: real)

  /** An image drawn `divisor` times smaller than its natural size, centred
      on the point (`cx`, `cy`) given in millimetres. */
  function Centred(image: Image, px: Pixels, divisor: real, cx: real, cy: real): (p: Placement)
    requires divisor > 0.0
    ensures p.image == image
    ensures p.x + p.width / 2.0 == cx * Mm && p.y + p.height / 2.0 == cy * Mm
    ensures p.width * divisor == px.width as real * PixelMm * Mm
    ensures p.height * divisor == px.height as real * PixelMm * Mm
  {
    var w := px.width as real * PixelMm / divisor;
    var h := px.height as real * PixelMm / divisor;
    Placement(image, cx * Mm - w * Mm / 2.0, cy * Mm - h * Mm / 2.0, w * Mm, h * Mm)
  }

  /** The seal, a fifth of its size, centred on cell 590. */
  function SealPlacement(px: Pixels): Placement
  {
    Centred(Seal, px, 5.0, CentreX(590), CentreY(590))
  }

  /** The signature `sing_1.png`, a fifth of its size, centred on cell 593. */
  function SignaturePlacement(px: Pixels): Placement
  {
    Centred(Signature, px, 5.0, CentreX(593), CentreY(593))
  }

  /** The garanzia's company stamp: `1/1.33` of its size, centred on a point
      offset from cell 27. */
  function GuaranteeCompanyPlacement(px: Pixels): Placement
  {
    var row27 := CellRow(27);
    var col27 := CellCol(27);
    var cx := (col27 as real + 5.0 + 0.5 + 1.25 + 1.0 + 1.0 / 3.0 - 3.0 - 0.5) * CellWidth;
    var cy := PageHeight - (row27 as real + 0.5 + 1.0 + 0.5) * CellHeight;
    Centred(Company, px, 1.33, cx, cy)
  }

  /** The company stamp of carta, approvazione and contratto: `1.44/2` of its
      size, its bottom-left corner placed from cell 52 counted from 1. */
  function CompanyPlacement(px: Pixels): (p: Placement)
    ensures p.image == Company
    ensures p.width == px.width as real * PixelMm / 2.0 * 1.44 * Mm
    ensures p.height == px.height as real * PixelMm / 2.0 * 1.44 * Mm
  {
    var w := px.width as real * PixelMm / 2.0 * 1.44;
    var h := px.height as real * PixelMm / 2.0 * 1.44;
    var row52 := CellRow(52) + 1;
    var col52 := CellCol(52) + 1;
    var x := (col52 as real * CellWidth - 0.5 * CellWidth - (1.0 / 6.0) * CellWidth + 0.25 * CellWidth) * Mm;
    var y := (PageHeight - (row52 as real * CellHeight + CellHeight) + 0.5 * CellHeight + 0.25 * CellHeight
              - 1.0 * CellHeight) * Mm;
    Placement(Company, x, y, w * Mm, h * Mm)
  }

  /** The contract's logo: a ninth of its size, its bottom-left corner
      placed from cell 71. */
  function LogoPlacement(px: Pixels): (p: Placement)
    ensures p.image == Logo
    ensures p.width == px.width as real * PixelMm / 9.0 * Mm
    ensures p.height == px.height as real * PixelMm / 9.0 * Mm
  {
    var w := px.width as real * PixelMm / 9.0;
    var h := px.height as real * PixelMm / 9.0;
    var row71 := CellRow(71);
    var col71 := CellCol(71);
    var x := (col71 as real - 2.0 + 4.0 - 1.5) * CellWidth * Mm;
    var y := (PageHeight - (row71 as real * CellHeight + CellHeight) - 0.25 * CellHeight - 1.0 * CellHeight) * Mm;
    Placement(Logo, x, y, w * Mm, h * Mm)
  }

  /** The stamp's bottom-left corner is a twelfth of a cell right of the
      centre of cell 52, the logo's is the centre of cell 71, and both stand
      a quarter of a cell below the bottom of the fourth grid row. */
  lemma CornerPlacements(company: Pixels, logo: Pixels)
    ensures CompanyPlacement(company).x == (CentreX(52) + CellWidth / 12.0) * Mm
    ensures LogoPlacement(logo).x == CentreX(71) * Mm
    ensures CompanyPlacement(company).y == LogoPlacement(logo).y == (PageHeight - 4.25 * CellHeight) * Mm
  {
  }

  /** `p` is drawn in the proportions of an image of `px` pixels. */
  predicate KeepsAspect(p: Placement, px: Pixels)
  {
    p.width * px.height as real == p.height * px.width as real
  }

  /** Every image is drawn in its own proportions, so the
      `preserveAspectRatio` flag of `drawImage` never changes a drawing. */
  lemma AspectKept(px: Pixels)
    ensures KeepsAspect(SealPlacement(px), px) && KeepsAspect(SignaturePlacement(px), px)
    ensures KeepsAspect(GuaranteeCompanyPlacement(px), px)
    ensures KeepsAspect(CompanyPlacement(px), px) && KeepsAspect(LogoPlacement(px), px)
  {
  }

  /** The overlay document's pages, each the list of images drawn on it; or
      `None` when an image the document needs cannot be opened. */
  function OverlayPages(doc: Documents.DocType, files: ImageFiles): (r: Option<seq<seq<Placement>>>)
  {
    match doc
    case Garanzia =>
      if files.company.None? || files.seal.None? || files.signature.None? then None
      else Some([[GuaranteeCompanyPlacement(files.company.value), SealPlacement(files.seal.value),
                  SignaturePlacement(files.signature.value)]])
    case Carta => LetterPages(files)
    case Approvazione => LetterPages(files)
    case Contratto =>
      if files.company.None? || files.logo.None? then None
      else
        var logo := LogoPlacement(files.logo.value);
        Some([[CompanyPlacement(files.company.value), logo], [logo]])
  }

  function LetterPages(files: ImageFiles): Option<seq<seq<Placement>>>
  {
    if files.company.None? || files.seal.None? || files.signature.None? then None
    else Some([[CompanyPlacement(files.company.value), SealPlacement(files.seal.value),
                SignaturePlacement(files.signature.value)]])
  }

  // ---------------------------------------------------------------- merging

  /** A page of a PDF: one produced by the renderer, or one with an overlay
      page's images merged onto it. */
  datatype Page = Rendered(index: nat) | Stamped(base: Page, images: seq<Placement>)

  /** The pages written out: page `i` of the base has overlay page `i`
      merged onto it when there is one, and is kept as it is otherwise. */
  function Merged(base: seq<Page>, overlay: seq<seq<Placement>>): (out: seq<Page>)
    ensures |out| == |base|
  {
    seq(|base|, i requires 0 <= i < |base| => if i < |overlay| then Stamped(base[i], overlay[i]) else base[i])
  }

  /** `for i, page in enumerate(base_pdf.pages): ...; writer.add_page(page)`. */
  method MergePages(base: seq<Page>, overlay: seq<seq<Placement>>) returns (written: seq<Page>)
    ensures written == Merged(base, overlay)
  {
    written := [];
    var i := 0;
    while i < |base|
      invariant 0 <= i <= |base|
      invariant written == Merged(base, overlay)[..i]
    {
      var page := base[i];
      if i < |overlay| {
        page := Stamped(page, overlay[i]);
      }
      written := written + [page];
      i := i + 1;
    }
  }

  /** `_add_images_to_pdf`: the merged pages, or the rendered pages
      unchanged when the overlay cannot be built. */
  function AddImages(base: seq<Page>, doc: Documents.DocType, files: ImageFiles): seq<Page>
  {
    match OverlayPages(doc, files)
    case Some(overlay) => Merged(base, overlay)
    case None => base
  }

  // ---------------------------------------------------------------- properties

  /** Merging keeps every page, in order, and changes a page only where an
      overlay page exists. */
  lemma MergedPages(base: seq<Page>, overlay: seq<seq<Placement>>, i: nat)
    requires i < |base|
    ensures i < |overlay| ==> Merged(base, overlay)[i] == Stamped(base[i], overlay[i])
    ensures i >= |overlay| ==> Merged(base, overlay)[i] == base[i]
  {
  }

  /** The document keeps its page count whatever happens to the images. */
  lemma PageCountKept(base: seq<Page>, doc: Documents.DocType, files: ImageFiles)
    ensures |AddImages(base, doc, files)| == |base|
  {
  }

  /** Every page after the first of a letter, and after the first two of a
      contract, is written unchanged; `LetterStamped` and `ContractLogos`
      say what the first pages carry. */
  lemma StampedPages(base: seq<Page>, doc: Documents.DocType, files: ImageFiles, i: nat)
    requires i < |base|
    ensures i >= (if doc == Documents.Contratto then 2 else 1) ==> AddImages(base, doc, files)[i] == base[i]
  {
  }

  /** A contract's first page carries the company stamp and the logo, its
      second page, when there is one, the same logo at the same place. */
  lemma ContractLogos(base: seq<Page>, files: ImageFiles)
    requires |base| >= 1 && files.company.Some? && files.logo.Some?
    ensures var out := AddImages(base, Documents.Contratto, files);
      var logo := LogoPlacement(files.logo.value);
      && out[0] == Stamped(base[0], [CompanyPlacement(files.company.value), logo])
      && (|base| >= 2 ==> out[1] == Stamped(base[1], [logo]))
  {
  }

  /** A letter's first page carries the company stamp (the garanzia's at its
      own place and size), the seal and the signature, in that order. */
  lemma LetterStamped(base: seq<Page>, doc: Documents.DocType, files: ImageFiles)
    requires doc != Documents.Contratto && |base| >= 1
    requires files.company.Some? && files.seal.Some? && files.signature.Some?
    ensures var company := if doc == Documents.Garanzia then GuaranteeCompanyPlacement(files.company.value)
                           else CompanyPlacement(files.company.value);
      AddImages(base, doc, files)[0] ==
        Stamped(base[0], [company, SealPlacement(files.seal.value), SignaturePlacement(files.signature.value)])
  {
  }

  /** The overlay exists exactly when the images the document draws can be
      opened, and has one page for a letter and two for the contract. */
  lemma OverlayPageCount(doc: Documents.DocType, files: ImageFiles)
    ensures OverlayPages(doc, files).Some? <==>
      files.company.Some? && (if doc == Documents.Contratto then files.logo.Some?
                              else files.seal.Some? && files.signature.Some?)
    ensures OverlayPages(doc, files).Some? ==>
      |OverlayPages(doc, files).value| == if doc == Documents.Contratto then 2 else 1
  {
  }

  /** When an image file the document draws cannot be opened, the rendered
      pages are returned as they are. */
  lemma MissingImageFallsBack(base: seq<Page>, doc: Documents.DocType, files: ImageFiles)
    requires files.company.None?
      || (doc != Documents.Contratto && (files.seal.None? || files.signature.None?))
      || (doc == Documents.Contratto && files.logo.None?)
    ensures AddImages(base, doc, files) == base
  {
  }

  /** The seal and the signature sit in the same grid row, the signature
      three cells to the right of the seal, each centred on its cell. */
  lemma SealAndSignature(seal: Pixels, signature: Pixels)
    ensures CellRow(590) == CellRow(593) == 23
    ensures CellCol(590) == 14 && CellCol(593) == 17
    ensures var s := SealPlacement(seal);
      var g := SignaturePlacement(signature);
      && s.x + s.width / 2.0 == (14.0 + 0.5) * CellWidth * Mm
      && g.x + g.width / 2.0 == (s.x + s.width / 2.0) + 3.0 * CellWidth * Mm
      && g.y + g.height / 2.0 == s.y + s.height / 2.0
  {
  }
}
