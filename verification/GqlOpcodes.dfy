/** Constants and operation classes of the GQL protocol (engine/gql/opcodes.go). */
module GqlOpcodes {
  import opened Bytes

  const VERSION: byte := 1
  const OPCODE_QUERY: byte := 0x01
  const OPCODE_MUTATE: byte := 0x02
  const OPCODE_RESULT: byte := 0x03
  const OPCODE_ERROR: byte := 0x04
  const FLAG_NONE: uint16 := 0

  const FRAME_HEADER_SIZE := 8
  const MAX_PAYLOAD_SIZE := 16 * 1024 * 1024
  const MAX_NAMESPACE_LEN := 128
  const MAX_ENTRY_ID_LEN := 64
  const MAX_CATEGORY_LEN := 32
  const MAX_FIELD_KEY_LEN := 64
  const MAX_FIELD_VALUE_LEN := 8192
  const MAX_FIELDS_COUNT := 100

  predicate IsValidOpcode(o: byte) {
    o == OPCODE_QUERY || o == OPCODE_MUTATE || o == OPCODE_RESULT || o == OPCODE_ERROR
  }

  predicate IsReadOperation(op: bytes) {
    || op == Ascii("list_entries") || op == Ascii("get_entry") || op == Ascii("query_entries")
    || op == Ascii("search_entries")
    || op == Ascii("file.list_folder") || op == Ascii("file.download") || op == Ascii("file.upload_progress")
    || op == Ascii("workspace.list")
    || op == Ascii("sync.list_peers")
    || op == Ascii("audit.list")
    || op == Ascii("tool.recovery_phrase")
    || op == Ascii("system.health")
  }

  predicate IsWriteOperation(op: bytes) {
    || op == Ascii("create_entry") || op == Ascii("update_entry") || op == Ascii("delete_entry")
    || op == Ascii("file.create_folder") || op == Ascii("file.rename_folder") || op == Ascii("file.delete_folder")
    || op == Ascii("file.move") || op == Ascii("file.ingest")
    || op == Ascii("workspace.create") || op == Ascii("workspace.switch") || op == Ascii("workspace.rename")
    || op == Ascii("workspace.delete")
    || op == Ascii("sync.trigger")
    || op == Ascii("tool.ssh_gen")
  }

  /** Every known operation has a short, non-empty name. */
  lemma ReadOperationNames(op: bytes)
    requires IsReadOperation(op)
    ensures 0 < |op| <= 32
  {
  }

  lemma WriteOperationNames(op: bytes)
    requires IsWriteOperation(op)
    ensures 0 < |op| <= 32
  {
  }

  /** go: isValidOperation */
  predicate IsValidOperation(op: bytes) {
    || op == Ascii("list_entries") || op == Ascii("get_entry") || op == Ascii("query_entries")
    || op == Ascii("create_entry") || op == Ascii("update_entry") || op == Ascii("delete_entry")
    || op == Ascii("search_entries")
    || op == Ascii("file.list_folder") || op == Ascii("file.create_folder") || op == Ascii("file.rename_folder")
    || op == Ascii("file.delete_folder") || op == Ascii("file.move") || op == Ascii("file.ingest")
    || op == Ascii("file.download") || op == Ascii("file.upload_progress")
    || op == Ascii("workspace.list") || op == Ascii("workspace.create") || op == Ascii("workspace.switch")
    || op == Ascii("workspace.rename") || op == Ascii("workspace.delete")
    || op == Ascii("sync.list_peers") || op == Ascii("sync.trigger")
    || op == Ascii("audit.list")
    || op == Ascii("tool.ssh_gen") || op == Ascii("tool.recovery_phrase")
    || op == Ascii("system.health")
  }

  /** The valid operations are the reads and the writes, and none is both. */
  lemma ReadsAndWrites(op: bytes)
    ensures IsValidOperation(op) <==> IsReadOperation(op) || IsWriteOperation(op)
    ensures !(IsReadOperation(op) && IsWriteOperation(op))
  {
    hide Ascii;
    NoneIsBoth(op);
  }

  lemma NoneIsBoth(op: bytes)
    ensures !(IsReadOperation(op) && IsWriteOperation(op))
  {
    hide IsReadOperation, IsWriteOperation;
    ReadShape(op);
    WriteShape(op);
  }

  lemma ReadShape(op: bytes)
    ensures IsReadOperation(op) ==>
              && |op| !in [11, 18] && (|op| == 12 ==> op[0] == 'l' as int) && (|op| == 9 ==> op[0] == 'g' as int)
              && (|op| == 16 ==> op[0] == 'f' as int)
  {
  }

  lemma WriteShape(op: bytes)
    ensures IsWriteOperation(op) ==>
              && |op| in [9, 11, 12, 16, 18] && (|op| == 12 ==> op[0] != 'l' as int) && (|op| == 9 ==> op[0] == 'f' as int)
              && (|op| == 16 ==> op[0] == 'w' as int)
  {
  }

  /** The opcodes are the numbers 1 to 4: reads, writes, results, errors. */
  lemma OpcodesAreOneToFour(o: byte)
    ensures IsValidOpcode(o) <==> o in [1, 2, 3, 4]
    ensures [OPCODE_QUERY, OPCODE_MUTATE, OPCODE_RESULT, OPCODE_ERROR] == [1, 2, 3, 4]
  {
  }
}
