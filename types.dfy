/** The records of types.ts. Ids are opaque strings; a node map is the
    `Record<string, OrgNode>` of a project. */
module Types {

  datatype Option<+T> = None | Some(value: T)

  datatype OrgNode = OrgNode(
    id: string,
    name: string,
    /** Free text naming the recommender; matched against other nodes' names. */
    employeeId: string,
    value: real,
    /** Ids of the children, in display order. */
    children: seq<string>,
    /** None for the root. */
    parentId: Option<string>)

  type NodeMap = map<string, OrgNode>

  datatype Project = Project(
    id: string,
    title: string,
    rootNodeId: string,
    nodes: NodeMap,
    createdAt: int)

  datatype User = User(username: string)
}
