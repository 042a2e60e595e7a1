/** Translation of Gmsh element-type codes into CalculiX element-type codes. */
module ElementTypes {

  /** The fixed conversion table: Gmsh line elements become CalculiX beams,
      Gmsh triangles and quadrilaterals become CalculiX shells. */
  const GmshToCcx: map<string, string> := map[
    "C1D2" := "B31", "T3D2" := "B31",
    "C1D3" := "B32", "T3D3" := "B32",
    "C2D3" := "S3",  "CPS3" := "S3",
    "C2D4" := "S4",  "CPS4" := "S4"
  ]

  /** The CalculiX codes the table produces. */
  const CcxCodes: set<string> := {"B31", "B32", "S3", "S4"}

  /** Converts a Gmsh element type; a code missing from the table is returned
      unchanged (the diagnostic printed in that case is not modelled). */
  function RenameElement(gmshType: string): (ccxType: string)
    ensures ccxType == gmshType || ccxType in CcxCodes
  {
    if gmshType in GmshToCcx then GmshToCcx[gmshType] else gmshType
  }

  /** The eight table entries, written out. */
  lemma RenameElementTable()
    ensures RenameElement("C1D2") == "B31" && RenameElement("T3D2") == "B31"
    ensures RenameElement("C1D3") == "B32" && RenameElement("T3D3") == "B32"
    ensures RenameElement("C2D3") == "S3" && RenameElement("CPS3") == "S3"
    ensures RenameElement("C2D4") == "S4" && RenameElement("CPS4") == "S4"
  {
  }

  /** Exactly the eight listed codes are translated; every other code passes through. */
  lemma RenameElementPassThrough(gmshType: string)
    ensures RenameElement(gmshType) != gmshType <==>
      gmshType in {"C1D2", "T3D2", "C1D3", "T3D3", "C2D3", "CPS3", "C2D4", "CPS4"}
  {
  }

  /** No Gmsh code is ever renamed to a CalculiX plane-stress code: "CPS3" and
      "CPS4" are keys of the table and are mapped to shells. */
  lemma NothingRenamesToPlaneStress(gmshType: string)
    ensures RenameElement(gmshType) != "CPS3" && RenameElement(gmshType) != "CPS4"
  {
  }
}
