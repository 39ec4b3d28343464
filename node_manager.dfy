/** The immutable identity of one listening node: name, address and port. */
module Node {
  import opened Java

  /**
   * All three fields are fixed when the value is built and nothing can
   * change them afterwards, as with the Java class's `final` fields.
   */
  datatype NodeManager = NodeManager(nodeName: string, nodeIp: string, nodePort: int32)
  {
    function GetNodeName(): string { nodeName }

    function GetNodeIp(): string { nodeIp }

    function GetNodePort(): int32 { nodePort }
  }

  /** Each getter returns exactly the argument given to the constructor. */
  lemma GettersReturnConstructorArguments(name: string, ip: string, port: int32)
    ensures NodeManager(name, ip, port).GetNodeName() == name
    ensures NodeManager(name, ip, port).GetNodeIp() == ip
    ensures NodeManager(name, ip, port).GetNodePort() == port
  {
  }

  /** Two nodes that answer every getter alike are the same node: the getters expose the whole record. */
  lemma GettersDetermineNode(a: NodeManager, b: NodeManager)
    requires a.GetNodeName() == b.GetNodeName()
    requires a.GetNodeIp() == b.GetNodeIp()
    requires a.GetNodePort() == b.GetNodePort()
    ensures a == b
  {
  }
}
