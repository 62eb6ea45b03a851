// The page-table entries shared by the multimedia IOMMU and the GPU's MMU: a
// 28-bit frame number with a VALID and a WRITE bit above it. The C code sets
// and tests single bits of a 32-bit word.
module PageEntry {
  const PAGE: nat := 4096
  const VALID: nat := 0x10000000
  const WRITE: nat := 0x20000000
  const WORD: nat := 0x100000000

  predicate ValidBit(pte: nat) {
    pte / VALID % 2 == 1
  }

  predicate WriteBit(pte: nat) {
    pte / WRITE % 2 == 1
  }

  function SetValid(pte: nat): nat {
    if ValidBit(pte) then pte else pte + VALID
  }

  function SetWrite(pte: nat): nat {
    if WriteBit(pte) then pte else pte + WRITE
  }

  function Frame(pte: nat): nat {
    pte % VALID
  }

  // frame | VALID | (writable ? WRITE : 0)
  function Make(frame: nat, writable: bool): nat {
    if writable then SetWrite(SetValid(frame)) else SetValid(frame)
  }

  // A 28-bit frame number never carries into the flag bits.
  lemma Fields(frame: nat, writable: bool)
    requires frame < VALID
    ensures var pte := Make(frame, writable);
            0 < pte < WORD && ValidBit(pte) && (WriteBit(pte) <==> writable) && Frame(pte) == frame
  {
  }
}
