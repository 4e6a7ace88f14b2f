/** Node identifiers. */
module NodeIds {
  datatype NodeId = NodeId(namespace: nat, identifier: string)
}
