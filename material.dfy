/** MtMaterial without its bitmap: a name and the file name of the diffuse texture. */
module Materials {

  /** Null names are the empty string here. */
  datatype Material = Material(name: string, diffuseTextureFileName: string)

  /** The parameterless constructor. */
  function New(): (m: Material)
    ensures m.name == "" && m.diffuseTextureFileName == ""
  {
    Material("", "")
  }
}
