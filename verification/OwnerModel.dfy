/** The discriminated owner of a graph configuration, which three migrations introduce, enforce and
    index. */
module OwnerModel {
  import opened Base

  type Id = nat

  datatype Kind = Chatroom | AgentGroup | Workspace

  /** Exactly one owner column is filled, the one the kind names. */
  predicate OwnerCheck(kind: Kind, chatroom: Option<Id>, group: Option<Id>, workspace: Option<Id>) {
    match kind
    case Chatroom => chatroom.Some? && group.None? && workspace.None?
    case AgentGroup => group.Some? && chatroom.None? && workspace.None?
    case Workspace => workspace.Some? && chatroom.None? && group.None?
  }
}
