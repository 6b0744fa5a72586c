/** Type descriptions as the DWARF reader hands them to the engine, and graph node names. */
module Types {

  datatype TypeInfo = TypeInfo(name: string, byteSize: nat, isPointer: bool, fields: seq<FieldInfo>)

  datatype FieldInfo = FieldInfo(name: string, byteOffset: nat, byteSize: nat, typeInfo: TypeInfo)

  datatype NodeId = Global(g: nat) | Field(owner: nat, f: nat) | Local(frame: nat, l: nat)

  /** `strip_prefix('*')`, with the empty string when there is no star. */
  function Pointee(name: string): string {
    if |name| > 0 && name[0] == '*' then name[1..] else ""
  }
}
