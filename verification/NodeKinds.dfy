/** The numbers and names of the node kinds (src/nodetypenames.txt, src/bridge.cpp:34-40). */
module NodeKinds {
  import opened LokSyntax

  type Capital = c: char | 'A' <= c <= 'Z' witness 'A'

  /** The names of the node kinds, as they are listed in the source. */
  const NAMES := FIRST_NAMES + MORE_NAMES + LAST_NAMES

  const FIRST_NAMES: seq<seq<Capital>> := [
    "NONE", "LOAD", "RUN", "FUNCDEF", "BLOCK", "TYPESINGLE", "TYPEMULTI", "TYPEFN", "PARAMLIST", "PARAM",
    "DECL", "LIBNAME", "FILEPATH", "EXPRBASIC", "EXPRDECL"]

  const MORE_NAMES: seq<seq<Capital>> := [
    "VALINT", "VALFLOAT", "VALSTR", "STMTIF", "STMTFOR", "ARGLIST", "TYPEQUALPTR", "TYPEQUALUPG", "TYPEQUALARR",
    "STMTWHILE", "ARGSFOR", "TYPEDEF", "CTORDEF", "CTORINIT"]

  const LAST_NAMES: seq<seq<Capital>> := [
    "ATTRS", "ATTR", "NAMESPACE", "STMTRTN", "DTORDEF", "OPOVERLOAD", "VALBIT", "TYPEDECL", "STMTDOWHILE",
    "STMTDOFOR", "QUALPATH", "FQUALPATH"]

  const KINDS := [
    NONE, LOAD, RUN, FUNCDEF, BLOCK, TYPESINGLE, TYPEMULTI, TYPEFN, PARAMLIST, PARAM,
    DECL, LIBNAME, FILEPATH, EXPRBASIC, EXPRDECL, VALINT, VALFLOAT, VALSTR, STMTIF, STMTFOR,
    ARGLIST, TYPEQUALPTR, TYPEQUALUPG, TYPEQUALARR, STMTWHILE, ARGSFOR, TYPEDEF, CTORDEF,
    CTORINIT, ATTRS, ATTR, NAMESPACE, STMTRTN, DTORDEF, OPOVERLOAD, VALBIT, TYPEDECL,
    STMTDOWHILE, STMTDOFOR, QUALPATH, FQUALPATH]

  /** The position of a kind in the list. */
  function KindNumber(k: Kind): (n: nat)
    ensures n < |KINDS| == |NAMES| && KINDS[n] == k
  {
    match k
    case NONE => 0 case LOAD => 1 case RUN => 2 case FUNCDEF => 3 case BLOCK => 4
    case TYPESINGLE => 5 case TYPEMULTI => 6 case TYPEFN => 7 case PARAMLIST => 8 case PARAM => 9
    case DECL => 10 case LIBNAME => 11 case FILEPATH => 12 case EXPRBASIC => 13 case EXPRDECL => 14
    case VALINT => 15 case VALFLOAT => 16 case VALSTR => 17 case STMTIF => 18 case STMTFOR => 19
    case ARGLIST => 20 case TYPEQUALPTR => 21 case TYPEQUALUPG => 22 case TYPEQUALARR => 23 case STMTWHILE => 24
    case ARGSFOR => 25 case TYPEDEF => 26 case CTORDEF => 27 case CTORINIT => 28 case ATTRS => 29
    case ATTR => 30 case NAMESPACE => 31 case STMTRTN => 32 case DTORDEF => 33 case OPOVERLOAD => 34
    case VALBIT => 35 case TYPEDECL => 36 case STMTDOWHILE => 37 case STMTDOFOR => 38 case QUALPATH => 39
    case FQUALPATH => 40
  }

  function KindName(k: Kind): seq<Capital> {
    NAMES[KindNumber(k)]
  }
}
