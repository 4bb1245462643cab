/** File-offset to virtual-address translation over a mapped PE image
    (Microsoft PE/COFF specification: "MS-DOS Stub", "Signature (Image
    Only)" and "Section Table (Section Headers)"). The headers are given as
    the record the code reads at the image base, not as raw memory. */
module PeImage {
  import opened Prelude

  /** `IMAGE_DOS_SIGNATURE`: "MZ" read as a little-endian WORD. */
  const ImageDosSignature: word := 0x5A4D

  /** `IMAGE_NT_SIGNATURE`: "PE\0\0" read as a little-endian DWORD. */
  const ImageNtSignature: dword := 0x0000_4550

  /** `IMAGE_SECTION_HEADER`, the three fields the translation uses. */
  datatype SectionHeader = SectionHeader(
    virtualAddress: dword,
    sizeOfRawData: dword,
    pointerToRawData: dword)

  /** What `file_offset_to_ptr` reads at the image base: the DOS header's
      `e_magic` and `e_lfanew`; at `base + e_lfanew` the NT headers'
      `Signature` and `FileHeader.NumberOfSections`; and the section-table
      entries from `IMAGE_FIRST_SECTION` on. */
  datatype ImageHeaders = ImageHeaders(
    eMagic: word,
    eLfanew: int,
    signature: dword,
    numberOfSections: word,
    sectionTable: seq<SectionHeader>)

  predicate HasSignatures(h: ImageHeaders) {
    h.eMagic == ImageDosSignature && h.signature == ImageNtSignature
  }

  /** The entries the code reads exist: the first one, which it reads
      whatever `NumberOfSections` says, and `NumberOfSections` of them. */
  predicate TableCovered(h: ImageHeaders) {
    |h.sectionTable| >= 1 && |h.sectionTable| >= h.numberOfSections
  }

  /** `PointerToRawData + SizeOfRawData`, a sum of two DWORDs, wraps at 2^32. */
  function RawEnd(s: SectionHeader): dword {
    (s.pointerToRawData + s.sizeOfRawData) % DwordLimit
  }

  predicate ContainsOffset(s: SectionHeader, offset: nat) {
    s.pointerToRawData <= offset < RawEnd(s)
  }

  /** Without wrap-around, a section holds exactly its on-disk byte range. */
  lemma ContainsWithoutWrap(s: SectionHeader, offset: nat)
    requires s.pointerToRawData + s.sizeOfRawData < DwordLimit
    ensures ContainsOffset(s, offset) <==> s.pointerToRawData <= offset < s.pointerToRawData + s.sizeOfRawData
  {
  }

  /** The loop over the section table from index `i`: the first entry in
      table order whose raw range holds `offset`. */
  function FirstSectionFrom(table: seq<SectionHeader>, n: nat, offset: nat, i: nat): (r: Option<nat>)
    requires i <= n <= |table|
    ensures r.Some? ==> i <= r.value < n && ContainsOffset(table[r.value], offset)
    ensures r.Some? ==> forall j :: i <= j < r.value ==> !ContainsOffset(table[j], offset)
    ensures r.None? ==> forall j :: i <= j < n ==> !ContainsOffset(table[j], offset)
    decreases n - i
  {
    if i == n then None
    else if ContainsOffset(table[i], offset) then Some(i)
    else FirstSectionFrom(table, n, offset, i + 1)
  }

  /** `file_offset_to_ptr`; 0 stands for `nullptr`. Bad DOS or NT signature:
      null. Before section 0's raw data (the header region): `base + offset`.
      Otherwise the first section in table order whose raw range holds the
      offset maps it to `base + VirtualAddress + (offset - PointerToRawData)`;
      no such section: null. */
  function FileOffsetToPtr(base: nat, offset: nat, h: ImageHeaders): (r: nat)
    requires HasSignatures(h) ==> TableCovered(h)
    ensures !HasSignatures(h) ==> r == 0
    ensures HasSignatures(h) && offset < h.sectionTable[0].pointerToRawData ==> r == base + offset
    ensures HasSignatures(h) && offset >= h.sectionTable[0].pointerToRawData ==>
      forall k :: 0 <= k < h.numberOfSections && ContainsOffset(h.sectionTable[k], offset)
        && (forall j :: 0 <= j < k ==> !ContainsOffset(h.sectionTable[j], offset))
        ==> r == base + h.sectionTable[k].virtualAddress + (offset - h.sectionTable[k].pointerToRawData)
    ensures HasSignatures(h) && offset >= h.sectionTable[0].pointerToRawData
      && (forall k :: 0 <= k < h.numberOfSections ==> !ContainsOffset(h.sectionTable[k], offset))
      ==> r == 0
  {
    if h.eMagic != ImageDosSignature then 0
    else if h.signature != ImageNtSignature then 0
    else if offset < h.sectionTable[0].pointerToRawData then base + offset
    else
      match FirstSectionFrom(h.sectionTable, h.numberOfSections, offset, 0)
      case None => 0
      case Some(k) =>
        var s := h.sectionTable[k];
        base + s.virtualAddress + (offset - s.pointerToRawData)
  }

  /** Moving the image moves every translated address by the same amount;
      a failed translation fails wherever the image sits. */
  lemma FileOffsetRelocates(base: nat, delta: nat, offset: nat, h: ImageHeaders)
    requires HasSignatures(h) ==> TableCovered(h)
    requires base > 0
    ensures FileOffsetToPtr(base + delta, offset, h) ==
      if FileOffsetToPtr(base, offset, h) == 0 then 0 else FileOffsetToPtr(base, offset, h) + delta
  {
  }
}
