/** The part of Node's `fs` module the tool uses, over a filesystem modelled
    as a table from path to file content. */
module Files {

  type Table = map<string, string>

  class FileSystem {
    var files: Table

    constructor (initial: Table)
      ensures files == initial
    {
      files := initial;
    }

    /** fs.readFileSync(path, 'utf8'); every caller checks existsSync first. */
    method Read(path: string) returns (content: string)
      requires path in files
      ensures content == files[path]
    {
      content := files[path];
    }

    /** fs.writeFileSync: creates or replaces the file. */
    method Write(path: string, content: string)
      modifies this
      ensures files == old(files)[path := content]
    {
      files := files[path := content];
    }

    /** fs.copyFileSync: the destination becomes a copy of the source. */
    method Copy(source: string, target: string)
      requires source in files
      modifies this
      ensures files == old(files)[target := old(files)[source]]
    {
      files := files[target := files[source]];
    }

    /** fs.unlinkSync; every caller checks existsSync first. */
    method Unlink(path: string)
      requires path in files
      modifies this
      ensures files == old(files) - {path}
    {
      files := files - {path};
    }
  }
}
