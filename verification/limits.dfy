/** The capacities and sizes of the interpreter and the network code, as numbers. */
module Limits {
  import Core
  import PatternCaptures
  import Gsub
  import PackCodec
  import ExprArena
  import GotoSpec
  import EnvSpec
  import EnvCells
  import TableSpec
  import Strings
  import Quote
  import Frames
  import Dns
  import TftpWire
  import TftpTransfer

  lemma InterpreterLimits()
    ensures Core.STR_CAP == 32768 && Strings.MAX_STRINGS == 256 && Quote.BUF == 256
    ensures PatternCaptures.GM_CAPS == 8 && Gsub.REPL_CAP == 4096
    ensures PackCodec.CAP == 4096 && PackCodec.STACK_CAP == 128
    ensures ExprArena.MAX_NODES == 1024 && GotoSpec.MAX_NODES == 1024
    ensures GotoSpec.MAX_SCOPES == 16 && GotoSpec.MAX_LABELS == 8 && GotoSpec.MAX_GOTOS == 8
    ensures GotoSpec.MAX_RESOLVED == 64 && GotoSpec.MAX_LOCALS == 16
    ensures EnvSpec.MAX_GLOBALS == 64 && EnvCells.MAX_FRAMES == 16 && EnvCells.MAX_LOCALS == 16
    ensures EnvCells.MAX_CELLS == 64 && EnvCells.MAX_CLOSURES == 32
    ensures TableSpec.TABLE_SLOTS == 32 && TableSpec.MAX_TABLES == 16 && TableSpec.MAX_MM_DEPTH == 100
  {}

  lemma NetworkLimits()
    ensures Frames.FRAME == 1514 && Frames.HEADERS == 42 && Dns.BUF == 256 && Dns.MAX_LABEL == 63
    ensures TftpWire.MAX_NAME == 128 && TftpWire.DEFAULT_BLKSIZE == 512 && TftpTransfer.RECV == 2048
  {}
}
