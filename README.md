# Silo core in Dafny

Silo is a backup tool that keeps files in a bare Git repository, through the
Grit library. This project models three small pieces of its core and proves
properties about each:

- **`Grit::Index#add`** (Silo's patch of Grit's staging index). The index is a
  tree of nested dictionaries: a directory name maps to a sub-dictionary, a
  file name maps to its data, or to `false` when the file is marked removed.
  `add(path, data)` splits the path on `/`. It
  walks the directory segments, creating missing directories as empty
  dictionaries. It then stores the data under the last segment, which keeps a
  trailing `/` when the path ends in one. In the model, `Index` is a class with
  a `tree` field. `Add` walks the segments in a loop and is proved equal to
  the reference insert `Put`. Lemmas about `Put` show three things: it reaches
  the target, it reuses or creates the directories on the way, and it leaves
  everything off the path unchanged.
- **`Silo::Repository`**. The constructor either opens the Git repository at
  a path, creates it, or raises: `NoSuchPathError`, `InvalidGitRepositoryError`
  or `InvalidRepositoryError`. It then prepares the repository when asked.
  `prepare` refuses to run twice. Otherwise it adds one commit holding the
  `.silo` marker. `prepared?` asks whether the head tree holds the marker.
  The disk and the Git repository are abstract records (`Disk`, `Store`). The
  pure function `Open` gives the constructor's outcome. The static method
  `Repository.New` stands for the constructor and is proved against `Open`.
- **`Grit::GitRuby::Repository#rev_list`** (Silo's patch). It takes the log of
  a start commit and cuts it at an end commit when given one. It keeps at most
  `max_count` entries. It renders them as concatenated raw text or as commit
  ids joined by newlines.

Ruby's `String#split` and `Array#join` are modelled in module `Strings`,
exactly for the separators used here, `/` and newline: `split` drops trailing
empty fields, and a leading separator gives an empty first field. Ruby's
special `split(' ')` (split on runs of whitespace) is not modelled; `join('')`
is modelled by `RevList.Raws`.

Files: `results.dfy` (Option/Result/Outcome), `strings.dfy`, `index.dfy`
(module `GritIndex`), `repository.dfy` (module `SiloRepository`), `revlist.dfy`
(module `RevList`).

Three behaviours of the code that the model follows as written:

- A path that exists but is an empty directory (no entries besides `.` and
  `..`) skips the layout check and is opened as it is.
- A missing `objects` or `refs` under a directory that has `HEAD` makes
  `File.stat` raise `Errno::ENOENT`. That is not `InvalidGitRepositoryError`,
  so it gets its own error kind, `NoSuchEntry`.
- An existing path that is a regular file makes `Dir.new` raise
  `Errno::ENOTDIR`. Its error kind is `NotADirectory`.

## Model

| member | source | states |
|---|---|---|
| `Strings.Fields` | lib/grit/index.rb:16 | a string has at least one field, and no field contains the separator |
| `Strings.TrimTrailingEmpty` | lib/grit/index.rb:16 | the result is a prefix of the fields, does not end in an empty field, and only empty fields were dropped |
| `Strings.Split` | lib/grit/index.rb:16 | Ruby `split('/')`: a prefix of the fields from which only empty fields were dropped, no segment holds `/`, the last segment is non-empty, and the result is empty exactly when the string is only slashes (or empty) |
| `Strings.FieldsAllEmpty` | lib/grit/index.rb:16 | every field is empty if and only if every character is the separator |
| `Strings.JoinFields` | lib/grit/index.rb:16 | joining the fields of a string with the separator gives the string back |
| `Strings.JoinEnds` | lib/grit/git-ruby/repository.rb:29-30 | `Array#join` with a separator ends with the last part |
| `Strings.FieldsPrefix` | lib/grit/git-ruby/repository.rb:30 | a leading run without separators becomes the front of the first field |
| `Strings.FieldsJoin` | lib/grit/git-ruby/repository.rb:30 | splitting `join(sep)` of a non-empty list of separator-free parts gives the parts back |
| `GritIndex.DirAt` | lib/grit/index.rb:22-25 | the directory reached by walking a path is the dictionary found there, or an empty one where the walk leaves the tree |
| `GritIndex.Put` | lib/grit/index.rb:20-28 | after the reference insert, walking the directories and then the key yields the stored entry |
| `GritIndex.Graft` | lib/grit/index.rb:23-28 | writing into the dictionary at a path puts exactly that dictionary at that path of the whole tree |
| `GritIndex.Locate` | lib/grit/index.rb:15-18 | an empty path and an all-slash path are the two errors; otherwise the directories are all split segments but the last (so one fewer level than segments), none holds `/`, and the key is the last segment with `/` appended exactly when the path ends in `/` |
| `GritIndex.LocateTrailingSlash` | lib/grit/index.rb:15-18 | `"a/b/"` stores key `"b/"` inside directory `"a"` |
| `GritIndex.LocateLeadingSlash` | lib/grit/index.rb:16-17 | `"/a"` descends into a directory named `""` and stores key `"a"` there |
| `GritIndex.GraftTwice` | lib/grit/index.rb:23-28 | a second write at the same path replaces the first |
| `GritIndex.DirAtExtend` | lib/grit/index.rb:24-25 | descending one more name is taking that name's sub-dictionary |
| `GritIndex.GraftExtend` | lib/grit/index.rb:23-25 | creating or keeping the next directory and descending into it is one write one level deeper |
| `GritIndex.GraftPut` | lib/grit/index.rb:28 | storing the data in the reached directory and writing it back is the reference insert |
| `GritIndex.PutFrame` | lib/grit/index.rb:22-28 | every path that leaves the insert's path finds the same entry as before: siblings at every level and the other keys of the last directory are unchanged |
| `GritIndex.PutDirs` | lib/grit/index.rb:22-26 | every directory on the path exists afterwards; it holds what it held before (nothing, if it was missing or only a removal marker) plus the next name, and all its other entries are unchanged |
| `GritIndex.PutOverwrite` | lib/grit/index.rb:28 | adding at the same path again overwrites the earlier value, and adding the same data twice leaves the tree as after the first add |
| `GritIndex.Index.Add` | lib/grit/index.rb:10-29 | an empty or all-slash path raises and leaves the tree alone; otherwise the new tree is the reference insert of the data (or of the removal marker `false`) at the located directories and key, a removal marker on the way being replaced by a new directory |
| `SiloRepository.HasMarker` | lib/silo/repository.rb:90-92 | a store can only be prepared when it has at least one commit |
| `SiloRepository.CheckLayout` | lib/silo/repository.rb:47-54 | an existing path passes exactly when it is a directory that is empty or has `HEAD`, `objects/` and `refs/`; a regular file raises NotADirectory exactly; a non-empty directory raises InvalidGitRepository exactly when `HEAD` is missing or the first of `objects`, `refs` that is not a directory is a file, and NoSuchEntry exactly when that one is missing |
| `SiloRepository.PrepareStore` | lib/silo/repository.rb:75-84 | a prepared store raises AlreadyPrepared; otherwise the history is kept and exactly one commit is appended, with message `Enabled Silo for this repository`, holding `.silo`, after which the store is prepared |
| `SiloRepository.Open` | lib/silo/repository.rb:39-69 | NoSuchPath exactly when the path is missing and `:create` is false; a new store is prepared with one commit by default and stays empty with `:prepare => false`; layout errors as the source raises them; InvalidRepository exactly when an existing store has commits but no marker; an existing store without commits is opened and prepared, or left as it is with `:prepare => false`; an already prepared store is opened unchanged; every opened store with `:prepare` is prepared; every opened store is prepared or has no commits; AlreadyPrepared is never raised |
| `SiloRepository.Repository.New` | lib/silo/repository.rb:39-69 | the constructor fails with `Open`'s error, or yields a fresh repository on the path whose store is `Open`'s result and which is prepared or empty |
| `SiloRepository.Repository.Prepare` | lib/silo/repository.rb:75-84 | on a prepared repository it raises AlreadyPrepared and changes nothing; otherwise the store becomes `PrepareStore`'s result and is prepared; a repository that is prepared or empty stays so |
| `SiloRepository.NewRepositoryScenarios` | test/test_repository.rb:19-45 | default options prepare a new repository; `:prepare => false` leaves it empty; `:create => false` on a missing path raises NoSuchPath; a non-empty non-Git directory raises InvalidGitRepository; a Git repository with foreign commits raises InvalidRepository |
| `SiloRepository.ExistingRepositoryScenarios` | test/test_repository.rb:49-75 | a repository with the marker commit opens unchanged and prepared, and preparing it again raises AlreadyPrepared |
| `RevList.PairOrder` | lib/grit/git-ruby/repository.rb:16-19 | in a two-element array the second element starts the log and the first reaches the output only through `truncate_arr`: when cutting at it keeps every log, the pair lists what the start id alone lists |
| `RevList.PairAsCutLog` | lib/grit/git-ruby/repository.rb:16-19 | for any `truncate_arr`, a two-element array lists what its second element alone lists when every log is first cut at the first element |
| `RevList.Limit` | lib/grit/git-ruby/repository.rb:21-25 | the result is a prefix of the log; without `max_count` it is the whole log, with `max_count` n it has min(n, size) entries |
| `RevList.RawsAppend` | lib/grit/git-ruby/repository.rb:28 | the raw text of two runs of entries is the first run's text followed by the second's |
| `RevList.RawsAt` | lib/grit/git-ruby/repository.rb:28 | each entry's raw text sits between the text of the entries before it and after it, with no separator |
| `RevList.RevList` | lib/grit/git-ruby/repository.rb:15-32 | raw output is the raw text of the kept entries, and so a prefix of the raw text of the whole (end-truncated) log; non-raw output is empty when `max_count` is 0 or the log is empty |
| `RevList.RawOutput` | lib/grit/git-ruby/repository.rb:27-28 | in raw output each kept entry's raw text stands between the raw text of the entries before it and after it, in log order |
| `RevList.LineOutput` | lib/grit/git-ruby/repository.rb:29-30 | non-raw output splits on newlines into exactly the ids of the kept entries, in order, and is empty when nothing is kept; when the last kept id is non-empty the output does not end in a newline |

## Left out

- `GritIndex.Index.Add`: requires that no file data (a String) sits on an intermediate directory name. `||=` then keeps the String, and the next `[]=` on it raises IndexError when the name does not occur in it, and otherwise rewrites or copies part of it. The model does not follow this. The removal marker `false` on such a name is modelled: `||=` replaces it with a new directory.
- `GritIndex.Index.Add`: returns only success or the error. Ruby's `add` returns `data`.
- `GritIndex.Index.Add`: Ruby's nested hashes are shared objects. The model holds the tree as one value and writes each change back along the walked path (`Graft`). Aliasing from outside the index is not modelled.
- Grit's `Index` constructor, `read_tree` and `write_tree` are not part of this model. `Index` is built from a given tree.
- `SiloRepository.Error`: Ruby's exceptions carry the path (`@path` is `File.expand_path path`). The model keeps only the error kind. `expand_path` depends on the current directory, so the `path` field of `Repository` also keeps the path as given, not expanded.
- `SiloRepository.Repository.Prepare`: leaves out the temporary work tree (`Dir.mktmpdir`, `FileUtils.touch`, the `GIT_WORK_TREE` variable) and Grit's `add` and `commit_index`. Together they are one abstract commit whose tree holds just `.silo`: a bare repository's index holds only what `git add` put there.
- `SiloRepository.Open`: `Dir.new(path).count` is an input (`Disk.entries`), and so is the repository Grit opens at an existing path (`Disk.store`). Grit's `Repo.new` does not check the path itself.
- `RevList.RevList`: Grit's `log` and `truncate_arr` are function parameters (Grit's `log(sha, options)` also reads the options; the caller fixes them into the `log` parameter), and so are content hashing and the object format. A `sha` array of a length other than two is not modelled.
- `RevList.Limit`: `max_count` is a natural number. A negative value is not modelled: `log[0, negative]` gives nil and `log.map` then raises NoMethodError. A non-numeric String gives 0 through `to_i`, which is `Some(0)`.
- `RevList.LineOutput`: assumes commit ids contain no newline.
- lib/silo/cli.rb is the command-line interface: argument dispatch and output. The `add`, `restore`, `remove`, `purge`, `contents` and remote operations it calls are not in the part of `Repository` modelled here.
- lib/silo/remote/*.rb are shell calls to `git remote` and `git push`. lib/core_ext/pathname.rb is a path helper. lib/silo.rb and lib/silo/errors.rb hold only declarations; the error kinds are the datatype `SiloRepository.Error`.
