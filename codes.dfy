/** The status codes of redis/Code.go and their message texts. */
module Codes {

  /** Go's `type Code int64`. */
  newtype Code = x: int | -0x8000_0000_0000_0000 <= x < 0x8000_0000_0000_0000

  // The five codes, numbered consecutively from 1000 as Go's iota does.
  const CodeSuccess: Code := 1000
  const CodeErrorRestore: Code := CodeSuccess + 1
  const CodeMonitorAddrError: Code := CodeSuccess + 2
  const CodeMonitorSentinelError: Code := CodeSuccess + 3
  const CodeMonitorClusterError: Code := CodeSuccess + 4

  /** The texts of codeMsgMap. */
  const CodeMessages: map<Code, string> := map[
    CodeSuccess := "success",
    CodeErrorRestore := "故障恢复",
    CodeMonitorAddrError := "redis 实例状态异常",
    CodeMonitorSentinelError := "redis 哨兵状态异常",
    CodeMonitorClusterError := "redis 集群状态异常"
  ]

  /** Code.Message: the mapped text, or the success text for an unmapped code. */
  function Message(c: Code): (msg: string)
    ensures msg in CodeMessages.Values
    ensures msg != ""
  {
    if c in CodeMessages then CodeMessages[c] else CodeMessages[CodeSuccess]
  }

  /** Exactly the five codes 1000..1004 are mapped. */
  lemma MappedCodes(c: Code)
    ensures c in CodeMessages <==> 1000 <= c <= 1004
  {
  }

  /** Each defined code has its own text. */
  lemma MessagesOfDefinedCodes()
    ensures Message(CodeSuccess) == "success"
    ensures Message(CodeErrorRestore) == "故障恢复"
    ensures Message(CodeMonitorAddrError) == "redis 实例状态异常"
    ensures Message(CodeMonitorSentinelError) == "redis 哨兵状态异常"
    ensures Message(CodeMonitorClusterError) == "redis 集群状态异常"
  {
  }

  /** Any other code reads as a success. */
  lemma MessageDefault(c: Code)
    requires c < 1000 || c > 1004
    ensures Message(c) == Message(CodeSuccess) == "success"
  {
  }

  /** Different defined codes have different texts, so the text identifies the code. */
  lemma MessagesDistinct(c: Code, d: Code)
    requires c in CodeMessages && d in CodeMessages && c != d
    ensures Message(c) != Message(d)
  {
  }
}
