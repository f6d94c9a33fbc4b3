// A stored memory record and the shape of its identifiers.
module MemoryModel {

  datatype Record = Record(
    memoryId: string,
    projectId: string,
    kind: string,
    title: string,
    body: string,
    evidence: seq<string>,
    source: string,
    status: string,
    supersededBy: string,
    createdAt: string,
    updatedAt: string)

  predicate LowerHex(s: string) {
    forall i :: 0 <= i < |s| ==> '0' <= s[i] <= '9' || 'a' <= s[i] <= 'f'
  }

  // ^mem_[a-f0-9]{16}$
  predicate IsMemoryId(id: string) {
    |id| == 20 && id[..4] == "mem_" && LowerHex(id[4..])
  }

  // ^prj_[a-f0-9]{16}$, or empty for the global scope.
  predicate ValidProjectId(id: string) {
    id == "" || (|id| == 20 && id[..4] == "prj_" && LowerHex(id[4..]))
  }

  predicate ValidKind(kind: string) {
    kind in {"decision", "convention", "gotcha", "preference"}
  }

  predicate ValidStatus(status: string) {
    status in {"active", "superseded"}
  }

  predicate ValidSource(source: string) {
    source in {"human", "derived"}
  }
}
