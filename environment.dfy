/**
 * The collaborators the completion engine consults, reduced to the data it reads
 * from them: the current workspace (`Recaf.getCurrentWorkspace()`) and the running
 * system's classpath (`ClasspathUtil`).
 */
module Environment {

  /**
   * A declared method or field as the engine sees it: its name and its JVM
   * descriptor (for a method, `(args)ret`; for a field, the field type).
   */
  datatype Member = Member(name: string, descriptor: string)

  /** The declared methods and fields of one class, in declaration order. */
  datatype ClassMembers = ClassMembers(methods: seq<Member>, fields: seq<Member>)

  /**
   * A loaded workspace: the internal names of its classes (`getClassNames`) and,
   * per internal name, the members its class reader yields (`getClassReader`).
   */
  datatype Workspace = Workspace(classNames: set<string>, readers: map<string, ClassMembers>)

  /**
   * The system classpath: the list `getSystemClassNames` returns, and the classes
   * `getSystemClassIfExists` can load, keyed by their dotted (source) name.
   */
  datatype Runtime = Runtime(systemClassNames: seq<string>, classes: map<string, ClassMembers>)
}
