/** The declarations of argp.h: options, argps and their children. */
module ArgpTypes {
  import opened Wrappers

  /** A C string: its bytes, without the terminating NUL. */
  type CStr = seq<int>

  /** `struct argp_option`; the flags are OPTION_ARG_OPTIONAL, OPTION_HIDDEN, OPTION_ALIAS
      and OPTION_DOC. */
  datatype Opt = Opt(
    name: Option<CStr>,
    key: int,
    hasArg: bool,
    argOptional: bool,
    hidden: bool,
    alias: bool,
    doc: bool,
    hasDocString: bool,
    group: int)
  {
    /** `__option_is_short`, with `isprint` of the C and UTF-8 locales. */
    predicate IsShort() { !doc && 32 <= key <= 126 }

    /** `__option_is_end`. */
    predicate IsEnd() { key == 0 && name.None? && !hasDocString && group == 0 }
  }

  /** `struct argp`: OPTIONS without the end marker (None for a null pointer), the lines of
      ARGS_DOC, and the children. */
  datatype Argp = Argp(
    options: Option<seq<Opt>>,
    hasParser: bool,
    argsDoc: Option<seq<CStr>>,
    children: seq<Child>)

  datatype Child = Child(argp: Argp, group: int, hasHeader: bool)

  /** The bytes of a C string are not NUL. */
  predicate NameOk(o: Opt) {
    o.name.Some? ==> forall j | 0 <= j < |o.name.value| :: o.name.value[j] > 0
  }

  /** Conditions on well-written declarations: names are C strings, no end marker inside an
      option list, and the first option of a list is not an alias (`make_hol` asserts it). */
  ghost predicate WellDeclared(a: Argp) {
    && (a.options.Some? ==>
          && (forall i | 0 <= i < |a.options.value| :: !a.options.value[i].IsEnd() && NameOk(a.options.value[i]))
          && (a.options.value != [] ==> !a.options.value[0].alias))
    && (a.argsDoc.Some? ==> a.argsDoc.value != [])
    && forall c | c in a.children :: WellDeclared(c.argp)
  }
}
