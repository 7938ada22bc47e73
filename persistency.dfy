/**
 * Saved templates in the `Templates` folder, modelled as a map from file
 * name to what the file holds.  Save, load and delete all name the file
 * by the same rule: ".json" is appended unless the name already ends with
 * it in some casing.
 */
module Persistency {
  import opened Wrappers
  import opened Text
  import opened PartTree

  const Extension: string := ".json"

  /** The file name a template name denotes. */
  function JsonFileName(name: string): (r: string)
    ensures EndsWithIgnoreCase(r, Extension)
    ensures |name| <= |r| && r[..|name|] == name
    ensures |r| == |name| || |r| == |name| + |Extension|
  {
    if EndsWithIgnoreCase(name, Extension) then name
    else EndsWithAppended(name, Extension); name + Extension
  }

  /** Every file name ends with ".json" (ignoring case), and a name that
      already does is its own file name. */
  lemma JsonFileNameEnds(name: string)
    ensures EndsWithIgnoreCase(JsonFileName(name), Extension)
    ensures EndsWithIgnoreCase(name, Extension) <==> JsonFileName(name) == name
  {
    EndsWithAppended(name, Extension);
  }

  /** Applying the rule twice is applying it once. */
  lemma JsonFileNameIdempotent(name: string)
    ensures JsonFileName(JsonFileName(name)) == JsonFileName(name)
  {
    JsonFileNameEnds(name);
  }

  /** "x" and "x.json" denote the same file. */
  lemma SameFile(name: string)
    requires !EndsWithIgnoreCase(name, Extension)
    ensures JsonFileName(name + Extension) == JsonFileName(name)
  {
    EndsWithAppended(name, Extension);
  }

  /** A stored file: a template, or text that does not parse as an object. */
  datatype StoredFile = Saved(template: Template) | Corrupt

  /** What loading a name gives: the template saved under its file name. */
  function LoadFrom(files: map<string, StoredFile>, name: string): (r: Option<Template>)
    ensures r.Some? ==> JsonFileName(name) in files && files[JsonFileName(name)] == Saved(r.value)
    ensures r.None? ==> JsonFileName(name) !in files || files[JsonFileName(name)].Corrupt?
  {
    var path := JsonFileName(name);
    if path in files && files[path].Saved? then Some(files[path].template) else None
  }

  class TemplateStore {
    /** The `Templates` folder. */
    var files: map<string, StoredFile>

    constructor (files: map<string, StoredFile>)
      ensures this.files == files
    {
      this.files := files;
    }

    /** Writes the template under the name's file name; false, with nothing
        changed, when the write fails. */
    method SaveTemplate(template: Template, fileName: string, writeSucceeds: bool) returns (ok: bool)
      modifies this
      ensures ok == writeSucceeds
      ensures ok ==> files == old(files)[JsonFileName(fileName) := Saved(template)]
      ensures !ok ==> files == old(files)
    {
      var path := JsonFileName(fileName);
      if !writeSucceeds {
        return false;
      }
      files := files[path := Saved(template)];
      ok := true;
    }

    /** The template under the name's file name; none when the file is
        absent or does not hold an object. */
    method LoadTemplate(fileName: string) returns (r: Option<Template>)
      ensures r == LoadFrom(files, fileName)
      ensures r.Some? <==> JsonFileName(fileName) in files && files[JsonFileName(fileName)].Saved?
    {
      var path := JsonFileName(fileName);
      if path !in files {
        return None;
      }
      match files[path]
      case Saved(t) => r := Some(t);
      case Corrupt => r := None;
    }

    /** Removes the name's file: false, with nothing changed, when it is
        absent or the deletion fails. */
    method DeleteTemplate(fileName: string, deleteSucceeds: bool) returns (ok: bool)
      modifies this
      ensures ok <==> JsonFileName(fileName) in old(files) && deleteSucceeds
      ensures ok ==> files == old(files) - {JsonFileName(fileName)}
      ensures !ok ==> files == old(files)
    {
      var path := JsonFileName(fileName);
      if path !in files || !deleteSucceeds {
        return false;
      }
      files := files - {path};
      ok := true;
    }
  }

  /** Loading after a save of the same name, in either spelling, gives the
      template back; other names load as before. */
  lemma LoadAfterSave(files: map<string, StoredFile>, name: string, t: Template, other: string)
    ensures LoadFrom(files[JsonFileName(name) := Saved(t)], name) == Some(t)
    ensures !EndsWithIgnoreCase(name, Extension) ==>
      LoadFrom(files[JsonFileName(name) := Saved(t)], name + Extension) == Some(t)
    ensures JsonFileName(other) != JsonFileName(name) ==>
      LoadFrom(files[JsonFileName(name) := Saved(t)], other) == LoadFrom(files, other)
  {
    if !EndsWithIgnoreCase(name, Extension) {
      SameFile(name);
    }
  }

  /** Loading after a delete gives nothing; other names load as before. */
  lemma LoadAfterDelete(files: map<string, StoredFile>, name: string, other: string)
    ensures LoadFrom(files - {JsonFileName(name)}, name) == None
    ensures !EndsWithIgnoreCase(name, Extension) ==>
      LoadFrom(files - {JsonFileName(name)}, name + Extension) == None
    ensures JsonFileName(other) != JsonFileName(name) ==>
      LoadFrom(files - {JsonFileName(name)}, other) == LoadFrom(files, other)
  {
    if !EndsWithIgnoreCase(name, Extension) {
      SameFile(name);
    }
  }
}
