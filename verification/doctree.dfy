/**
 The document tree under the upload folder: for each project, a set of named
 child entries, each a version directory or a tag link. A tag and a version
 share the project's name space.
 */
module DocTree {
  import opened Prelude

  /** The uploaded file part of a request: its file name and its bytes. */
  datatype FilePart = FilePart(filename: string, data: seq<byte>)

  /** A version directory holding one upload's contents, or a tag link to a sibling entry. */
  datatype Entry = Version(upload: FilePart) | Link(source: string)

  /** The path `project/name` below the upload folder. */
  datatype Key = Key(project: string, name: string)

  type Tree = map<Key, Entry>

  /** The names listed in the directory of `project`: its versions and tags. */
  function Children(tree: Tree, project: string): (names: set<string>) {
    set k | k in tree && k.project == project :: k.name
  }

  /** The path `project/name` exists: the name is listed in the project's directory. */
  predicate Exists(tree: Tree, project: string, name: string): (b: bool)
    ensures b <==> name in Children(tree, project)
  {
    Key(project, name) in tree
  }

  /** Everything in the tree except the entry at `k` is the same in `tree'`. */
  predicate OthersUnchanged(tree: Tree, tree': Tree, k: Key) {
    (forall k' :: k' in tree && k' != k ==> k' in tree' && tree'[k'] == tree[k'])
    && (forall k' :: k' in tree' && k' != k ==> k' in tree)
  }

  /** The message a removal of an absent version returns; it names the version. */
  function NotFoundMessage(project: string, version: string): (m: string)
    ensures |m| > 0
  {
    "Could not find version " + project + "/" + version
  }

  /** What `remove_docs` reports (a message when nothing was there) and the tree after it. */
  datatype Removal = Removal(message: Option<string>, tree: Tree)

  /**
   `remove_docs(project, version)`: returns a message naming the version when
   it is absent, and otherwise removes the entry and returns nothing.
   */
  function RemoveDocs(tree: Tree, project: string, version: string): (r: Removal)
    ensures !Exists(r.tree, project, version)
    ensures r.message.Some? <==> !Exists(tree, project, version)
    ensures r.message.Some? ==> r.message.value == NotFoundMessage(project, version) && r.tree == tree
    ensures OthersUnchanged(tree, r.tree, Key(project, version))
  {
    var k := Key(project, version);
    if k in tree then Removal(None, tree - {k})
    else Removal(Some(NotFoundMessage(project, version)), tree)
  }

  /**
   Creating the version directory and extracting the upload into it. The
   entry afterwards holds this upload only.
   */
  function CreateVersion(tree: Tree, project: string, version: string, file: FilePart): (tree': Tree)
    ensures Exists(tree', project, version)
    ensures tree'[Key(project, version)] == Version(file)
    ensures OthersUnchanged(tree, tree', Key(project, version))
  {
    tree[Key(project, version) := Version(file)]
  }

  /** What `create_symlink` reports and the tree after it. */
  datatype Linking = Linking(created: bool, tree: Tree)

  /**
   `create_symlink(source, project/destination)`: refuses when the
   destination name is already taken, and otherwise adds a link whose source
   is the bare name given, whether or not an entry of that name exists.
   */
  function CreateSymlink(tree: Tree, project: string, source: string, destination: string): (r: Linking)
    ensures r.created <==> !Exists(tree, project, destination)
    ensures !r.created ==> r.tree == tree
    ensures r.created ==>
              Exists(r.tree, project, destination) && r.tree[Key(project, destination)] == Link(source)
    ensures OthersUnchanged(tree, r.tree, Key(project, destination))
  {
    var k := Key(project, destination);
    if k in tree then Linking(false, tree)
    else Linking(true, tree[k := Link(source)])
  }
}
