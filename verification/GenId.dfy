/** Generational handles (include/qtx/arena/gen_id.hpp).

    `GenId` is the handle as a record of its seven fields; it is what the arena and the
    bridge reason about.  The 64-bit layout the program really stores is given beside it
    with the program's own shifts and masks, and every operation on the word is shown to
    be the corresponding operation on the record. */
module GenIds {

  const MAX_ID: nat := 0xFF_FFFF
  const MAX_VERSION: nat := 0xFFFF
  const MAX_ALIGNMENT: nat := 127
  const MAX_SUB_SLOT: nat := 31

  const FP32: nat := 0
  const ACTIVE: nat := 1

  datatype GenId = GenId(slot: nat, version: nat, alignment: nat, quant: nat, state: nat, sub: nat, metadata: nat) {
    predicate IsNull() { this == NULL_ID }

    /** Out-of-range indices leave the handle as it was. */
    function WithSubSlot(k: nat): GenId {
      if k > MAX_SUB_SLOT then this else this.(sub := k)
    }
  }

  const NULL_ID: GenId := GenId(0, 0, 0, 0, 0, 0, 0)

  function Make(slot: nat, version: nat, alignment: nat, quant: nat, state: nat): GenId {
    if slot > MAX_ID || version > MAX_VERSION || alignment > MAX_ALIGNMENT then NULL_ID
    else GenId(slot, version, alignment, quant % 8, state % 4, 0, 0)
  }

  /* ---- the 64-bit word ---- */

  type Word = bv64

  function Slot(g: Word): Word { g & 0xFF_FFFF }
  function Version(g: Word): Word { (g >> 24) & 0xFFFF }
  function Alignment(g: Word): Word { (g >> 40) & 0x7F }
  function Quant(g: Word): Word { (g >> 47) & 0x7 }
  function State(g: Word): Word { (g >> 50) & 0x3 }
  function Sub(g: Word): Word { (g >> 52) & 0x1F }
  function Metadata(g: Word): Word { (g >> 57) & 0x7F }

  function Fields(g: Word): GenId {
    GenId(Slot(g) as nat, Version(g) as nat, Alignment(g) as nat, Quant(g) as nat,
          State(g) as nat, Sub(g) as nat, Metadata(g) as nat)
  }

  function MakeWord(slot: Word, version: Word, alignment: Word, quant: Word, state: Word): Word {
    if slot > 0xFF_FFFF || version > 0xFFFF || alignment > 0x7F then 0
    else
      (slot & 0xFF_FFFF) | ((version & 0xFFFF) << 24) | ((alignment & 0x7F) << 40)
      | ((quant & 0x7) << 47) | ((state & 0x3) << 50)
  }

  function WithSubWord(g: Word, k: Word): Word {
    if k > 31 then g else (g & !(0x1F << 52)) | ((k & 0x1F) << 52)
  }

  function WithMetadataWord(g: Word, m: Word): Word {
    if m > 127 then g else (g & !(0x7F << 57)) | ((m & 0x7F) << 57)
  }

  function WithStateWord(g: Word, s: Word): Word {
    (g & !(0x3 << 50)) | ((s & 0x3) << 50)
  }

  function WithQuantWord(g: Word, q: Word): Word {
    (g & !(0x7 << 47)) | ((q & 0x7) << 47)
  }

  function WithAlignmentWord(g: Word, a: Word): Word {
    if a > 127 then g else (g & !(0x7F << 40)) | ((a & 0x7F) << 40)
  }

  function BumpVersionWord(g: Word): Word {
    (g & !(0xFFFF << 24)) | (((Version(g) + 1) & 0xFFFF) << 24)
  }

  ghost predicate SameExceptSub(g: Word, h: Word) {
    Slot(g) == Slot(h) && Version(g) == Version(h) && Alignment(g) == Alignment(h) && Quant(g) == Quant(h)
    && State(g) == State(h) && Metadata(g) == Metadata(h)
  }

  /** The seven fields cover the word and do not overlap: a word is determined by them. */
  lemma FieldsDetermineWord(g: Word, h: Word)
    requires SameExceptSub(g, h) && Sub(g) == Sub(h)
    ensures g == h
  {
    WordFromFields(g);
    WordFromFields(h);
  }

  lemma WordFromFields(g: Word)
    ensures g == Slot(g) | (Version(g) << 24) | (Alignment(g) << 40) | (Quant(g) << 47)
                 | (State(g) << 50) | (Sub(g) << 52) | (Metadata(g) << 57)
  {
  }

  /** make() stores each argument in its own field and leaves the sub-slot and the tag zero; an argument
      too wide for its field gives the null handle. */
  lemma MakeRoundTrip(slot: Word, version: Word, alignment: Word, quant: Word, state: Word)
    ensures Fields(MakeWord(slot, version, alignment, quant, state))
            == if slot > 0xFF_FFFF || version > 0xFFFF || alignment > 0x7F then NULL_ID
               else GenId(slot as nat, version as nat, alignment as nat, (quant & 0x7) as nat, (state & 0x3) as nat, 0, 0)
  {
    hide MakeWord, Slot, Version, Alignment, Quant, State, Sub, Metadata;
    MakeFields(slot, version, alignment, quant, state);
    ZeroFields();
  }

  lemma MakeFields(slot: Word, version: Word, alignment: Word, quant: Word, state: Word)
    ensures var g := MakeWord(slot, version, alignment, quant, state);
            if slot > 0xFF_FFFF || version > 0xFFFF || alignment > 0x7F then g == 0
            else Slot(g) == slot && Version(g) == version && Alignment(g) == alignment && Quant(g) == quant & 0x7
                 && State(g) == state & 0x3 && Sub(g) == 0 && Metadata(g) == 0
  {
  }

  lemma ZeroFields()
    ensures Fields(0) == NULL_ID
  {
    assert Slot(0) == 0 && Version(0) == 0 && Alignment(0) == 0 && Quant(0) == 0 && State(0) == 0 && Sub(0) == 0 && Metadata(0) == 0;
  }

  /** Each setter changes its own field and no other; an out-of-range value changes nothing. */
  lemma SettersTouchOneField(g: Word, v: Word)
    ensures Fields(WithSubWord(g, v)) == if v > 31 then Fields(g) else Fields(g).(sub := v as nat)
    ensures Fields(WithMetadataWord(g, v)) == if v > 127 then Fields(g) else Fields(g).(metadata := v as nat)
    ensures Fields(WithAlignmentWord(g, v)) == if v > 127 then Fields(g) else Fields(g).(alignment := v as nat)
    ensures v <= 7 ==> Fields(WithQuantWord(g, v)) == Fields(g).(quant := v as nat)
    ensures v <= 3 ==> Fields(WithStateWord(g, v)) == Fields(g).(state := v as nat)
  {
    hide Fields, WithSubWord, WithMetadataWord, WithAlignmentWord, WithQuantWord, WithStateWord;
    SubFields(g, v);
    MetadataFields(g, v);
    AlignmentFields(g, v);
    QuantFields(g, v);
    StateFields(g, v);
  }

  lemma SubFields(g: Word, v: Word)
    ensures Fields(WithSubWord(g, v)) == if v > 31 then Fields(g) else Fields(g).(sub := v as nat)
  {
    hide WithSubWord, Slot, Version, Alignment, Quant, State, Sub, Metadata;
    SubSetter(g, v);
  }

  lemma MetadataFields(g: Word, v: Word)
    ensures Fields(WithMetadataWord(g, v)) == if v > 127 then Fields(g) else Fields(g).(metadata := v as nat)
  {
    hide WithMetadataWord, Slot, Version, Alignment, Quant, State, Sub, Metadata;
    MetadataSetter(g, v);
  }

  lemma AlignmentFields(g: Word, v: Word)
    ensures Fields(WithAlignmentWord(g, v)) == if v > 127 then Fields(g) else Fields(g).(alignment := v as nat)
  {
    hide WithAlignmentWord, Slot, Version, Alignment, Quant, State, Sub, Metadata;
    AlignmentSetter(g, v);
  }

  lemma QuantFields(g: Word, v: Word)
    ensures v <= 7 ==> Fields(WithQuantWord(g, v)) == Fields(g).(quant := v as nat)
  {
    hide WithQuantWord, Slot, Version, Alignment, Quant, State, Sub, Metadata;
    QuantSetter(g, v);
  }

  lemma StateFields(g: Word, v: Word)
    ensures v <= 3 ==> Fields(WithStateWord(g, v)) == Fields(g).(state := v as nat)
  {
    hide WithStateWord, Slot, Version, Alignment, Quant, State, Sub, Metadata;
    StateSetter(g, v);
  }

  lemma SubSetter(g: Word, v: Word)
    ensures var h := WithSubWord(g, v);
            if v > 31 then h == g else SameExceptSub(g, h) && Sub(h) == v
  {
  }

  lemma MetadataSetter(g: Word, v: Word)
    ensures var h := WithMetadataWord(g, v);
            if v > 127 then h == g
            else Metadata(h) == v && Slot(h) == Slot(g) && Version(h) == Version(g) && Sub(h) == Sub(g)
                 && Alignment(h) == Alignment(g) && Quant(h) == Quant(g) && State(h) == State(g)
  {
  }

  lemma AlignmentSetter(g: Word, v: Word)
    ensures var h := WithAlignmentWord(g, v);
            if v > 127 then h == g
            else Alignment(h) == v && Slot(h) == Slot(g) && Version(h) == Version(g) && Sub(h) == Sub(g)
                 && Metadata(h) == Metadata(g) && Quant(h) == Quant(g) && State(h) == State(g)
  {
  }

  lemma QuantSetter(g: Word, v: Word)
    ensures var h := WithQuantWord(g, v);
            v <= 7 ==> Quant(h) == v && Sub(h) == Sub(g)
                       && Slot(h) == Slot(g) && Version(h) == Version(g) && Alignment(h) == Alignment(g)
                       && State(h) == State(g) && Metadata(h) == Metadata(g)
  {
  }

  lemma StateSetter(g: Word, v: Word)
    ensures var h := WithStateWord(g, v);
            v <= 3 ==> State(h) == v && Slot(h) == Slot(g) && Version(h) == Version(g) && Sub(h) == Sub(g)
                       && Alignment(h) == Alignment(g) && Quant(h) == Quant(g) && Metadata(h) == Metadata(g)
  {
  }

  /** bumpVersion adds one modulo 2^16 and never carries into the alignment field. */
  lemma BumpVersionWraps(g: Word)
    ensures Version(BumpVersionWord(g)) == if Version(g) == 0xFFFF then 0 else Version(g) + 1
    ensures Slot(BumpVersionWord(g)) == Slot(g) && Alignment(BumpVersionWord(g)) == Alignment(g)
    ensures Quant(BumpVersionWord(g)) == Quant(g) && State(BumpVersionWord(g)) == State(g)
    ensures Sub(BumpVersionWord(g)) == Sub(g) && Metadata(BumpVersionWord(g)) == Metadata(g)
  {
  }
}
