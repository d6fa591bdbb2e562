/** Key codes and the substitution of Kindle Keyboard 3 codes.

    The C++ port decides substitution by a switch, the C program by scanning an
    alias table; `LegacyKeys.GetKeySubstituteCode` shows that they agree. */
module Keys {

  type RawKeyCode = c: int | -0x8000 <= c < 0x8000

  datatype Option<+T> = None | Some(value: T)

  // Codes reported by the Kindle 2 and the Kindle DX.
  const KPKEY_ENTER: RawKeyCode := 28
  const KPKEY_SHIFT: RawKeyCode := 42
  const KPKEY_AA: RawKeyCode := 90
  const KPKEY_BACK: RawKeyCode := 91
  const KPKEY_FW_PRESS: RawKeyCode := 92
  const KPKEY_SYM: RawKeyCode := 94
  const KPKEY_HOME: RawKeyCode := 98
  const KPKEY_PGBCK: RawKeyCode := 109
  const KPKEY_VMINUS: RawKeyCode := 114
  const KPKEY_VPLUS: RawKeyCode := 115
  const KPKEY_FW_UP: RawKeyCode := 122
  const KPKEY_FW_DOWN: RawKeyCode := 123
  const KPKEY_PGFWD: RawKeyCode := 124

  // Codes the Kindle Keyboard 3 reports instead.
  const K3KEY_HOME: RawKeyCode := 102
  const K3KEY_FW_UP: RawKeyCode := 103
  const K3KEY_LPGFWD: RawKeyCode := 104
  const K3KEY_FW_DOWN: RawKeyCode := 108
  const K3KEY_VMINUS: RawKeyCode := 114
  const K3KEY_VPLUS: RawKeyCode := 115
  const K3KEY_SYM: RawKeyCode := 126
  const K3KEY_BACK: RawKeyCode := 158
  const K3KEY_AA: RawKeyCode := 190
  const K3KEY_PGFWD: RawKeyCode := 191
  const K3KEY_LPGBCK: RawKeyCode := 193
  const K3KEY_FW_PRESS: RawKeyCode := 194

  function SubstituteCode(code: RawKeyCode): RawKeyCode {
    if code == K3KEY_AA then KPKEY_AA
    else if code == K3KEY_SYM then KPKEY_SYM
    else if code == K3KEY_HOME then KPKEY_HOME
    else if code == K3KEY_BACK then KPKEY_BACK
    else if code == K3KEY_PGFWD then KPKEY_PGFWD
    else if code == K3KEY_LPGBCK then KPKEY_PGBCK
    else if code == K3KEY_LPGFWD then KPKEY_PGFWD
    else if code == K3KEY_VPLUS then KPKEY_VPLUS
    else if code == K3KEY_VMINUS then KPKEY_VMINUS
    else if code == K3KEY_FW_UP then KPKEY_FW_UP
    else if code == K3KEY_FW_DOWN then KPKEY_FW_DOWN
    else if code == K3KEY_FW_PRESS then KPKEY_FW_PRESS
    else code
  }

  /** The Kindle Keyboard 3 codes and what stands for them, in numbers. */
  lemma {:induction false} SubstitutionByNumber(code: RawKeyCode)
    ensures SubstituteCode(code) ==
            if code == 190 then 90 else if code == 126 then 94 else if code == 102 then 98
            else if code == 158 then 91 else if code == 191 then 124 else if code == 193 then 109
            else if code == 104 then 124 else if code == 103 then 122 else if code == 108 then 123
            else if code == 194 then 92 else code
  {}

  // The codes that substitution replaces by another one.
  const K3_ONLY: set<RawKeyCode> := {
    K3KEY_AA, K3KEY_SYM, K3KEY_HOME, K3KEY_BACK, K3KEY_PGFWD,
    K3KEY_LPGBCK, K3KEY_LPGFWD, K3KEY_FW_UP, K3KEY_FW_DOWN, K3KEY_FW_PRESS }

  // The codes they are replaced by.
  const K3_TARGETS: set<RawKeyCode> := {
    KPKEY_AA, KPKEY_SYM, KPKEY_HOME, KPKEY_BACK, KPKEY_PGFWD,
    KPKEY_PGBCK, KPKEY_FW_UP, KPKEY_FW_DOWN, KPKEY_FW_PRESS }
}

module LegacyKeys {
  import opened Keys

  // The most keys of a sequence.
  const MAXSEQ: nat := 8

  datatype InputKeyAlias = InputKeyAlias(inputKeyCode: RawKeyCode, substituteCode: RawKeyCode)

  const DEFAULT_KEY_ALIAS: seq<InputKeyAlias> := [
    InputKeyAlias(K3KEY_AA, KPKEY_AA),
    InputKeyAlias(K3KEY_SYM, KPKEY_SYM),
    InputKeyAlias(K3KEY_HOME, KPKEY_HOME),
    InputKeyAlias(K3KEY_BACK, KPKEY_BACK),
    InputKeyAlias(K3KEY_PGFWD, KPKEY_PGFWD),
    InputKeyAlias(K3KEY_LPGBCK, KPKEY_PGBCK),
    InputKeyAlias(K3KEY_LPGFWD, KPKEY_PGFWD),
    InputKeyAlias(K3KEY_VPLUS, KPKEY_VPLUS),
    InputKeyAlias(K3KEY_VMINUS, KPKEY_VMINUS),
    InputKeyAlias(K3KEY_FW_UP, KPKEY_FW_UP),
    InputKeyAlias(K3KEY_FW_DOWN, KPKEY_FW_DOWN),
    InputKeyAlias(K3KEY_FW_PRESS, KPKEY_FW_PRESS)
  ]

  /** The C program's table scan computes the C++ port's switch. */
  method GetKeySubstituteCode(code: RawKeyCode) returns (rc: RawKeyCode)
    ensures rc == SubstituteCode(code)
  {
    rc := code;
    var i := 0;
    while i < |DEFAULT_KEY_ALIAS|
      invariant 0 <= i <= |DEFAULT_KEY_ALIAS|
      invariant rc == code
      invariant forall j :: 0 <= j < i ==> DEFAULT_KEY_ALIAS[j].inputKeyCode != code
    {
      if code == DEFAULT_KEY_ALIAS[i].inputKeyCode {
        rc := DEFAULT_KEY_ALIAS[i].substituteCode;
        return;
      }
      i := i + 1;
    }
    assert forall j :: 0 <= j < 12 ==> DEFAULT_KEY_ALIAS[j].inputKeyCode != code;
    NotInTable(code);
  }

  lemma {:induction false} NotInTable(code: RawKeyCode)
    requires forall j :: 0 <= j < 12 ==> DEFAULT_KEY_ALIAS[j].inputKeyCode != code
    ensures SubstituteCode(code) == code
  {
    assert DEFAULT_KEY_ALIAS[0].inputKeyCode == K3KEY_AA;
    assert DEFAULT_KEY_ALIAS[1].inputKeyCode == K3KEY_SYM;
    assert DEFAULT_KEY_ALIAS[2].inputKeyCode == K3KEY_HOME;
    assert DEFAULT_KEY_ALIAS[3].inputKeyCode == K3KEY_BACK;
    assert DEFAULT_KEY_ALIAS[4].inputKeyCode == K3KEY_PGFWD;
    assert DEFAULT_KEY_ALIAS[5].inputKeyCode == K3KEY_LPGBCK;
    assert DEFAULT_KEY_ALIAS[6].inputKeyCode == K3KEY_LPGFWD;
    assert DEFAULT_KEY_ALIAS[9].inputKeyCode == K3KEY_FW_UP;
    assert DEFAULT_KEY_ALIAS[10].inputKeyCode == K3KEY_FW_DOWN;
    assert DEFAULT_KEY_ALIAS[11].inputKeyCode == K3KEY_FW_PRESS;
  }
}
