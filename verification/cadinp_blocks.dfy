/**
 * The two fixed CADINP blocks that the .dat file operations insert, as the
 * lines a read of the written file yields (each line keeps its "\n").
 */
module CadinpBlocks {

  /** Marker whose presence means the linear analysis block is already in the file. */
  const AseMarker: string := "+PROG ASE"

  /** Markers of the two load values that initialisation sets (vertical V, horizontal H). */
  const VMarker: string := "NODE NO 1002 TYPE PG P1"
  const HMarker: string := "NODE NO 1002 TYPE PX P1"

  /** `code_block` of `add_code`: linear analysis (ASE) and graphical output (WING). */
  const AnalysisBlock: seq<string> := AseModule + WingModule

  const AseModule: seq<string> := [
      "\n",
      "+PROG ASE urs:9 $ Linear Analysis\n",
      "HEAD Calculation of forces and moments\n",
      "PAGE UNII 0\n",
      "CTRL OPT WARP VAL 0\n",
      "LC ALL\n",
      "END\n"
    ]

  const WingModule: seq<string> := [
      "+PROG WING urs:9.1 $ Graphical Output\n",
      "HEAD Graphical Output\n",
      "PAGE UNII 0\n",
      "CTRL EMPT YES         $ create empty pages if results not available\n",
      "CTRL WARN (800 802 1) $ no warnings if no values found\n",
      "CTRL WARN (804 808 1) $ no warnings if no values found\n",
      "CTRL WARN 873         $ no warning for 2D visibility\n",
      "#define SCHR=0.2\n",
      "SCHH H6 0.2\n",
      "#define FILL=-\n",
      "#define FILLI=-\n",
      "#define FILLC=-\n",
      "#define SCHRI=-\n",
      "#define SCHRC=-\n",
      "SIZ2 SPLI PICT\n",
      "SIZE -URS SC 0 SPLI  2x1 MARG NO FORM STAN\n",
      "VIEW EG3\n",
      "LC 1 DESI 1\n",
      "LOAD TYPE ALL\n",
      "LC 2 DESI 2\n",
      "LOAD TYPE ALL\n",
      "LC 3 DESI 3\n",
      "LOAD TYPE ALL\n",
      "LC 1 DESI 1\n",
      "NODE TYPE SV SCHH YES\n",
      "LC 2 DESI 2\n",
      "NODE TYPE SV SCHH YES\n",
      "LC 3 DESI 3\n",
      "NODE TYPE SV SCHH YES\n",
      "LC 1 DESI 1\n",
      "DEFO TYPE FULL FAC DEFA LC CURR; STRU NUME 0 0; DEFO NO\n",
      "LC 2 DESI 2\n",
      "DEFO TYPE FULL FAC DEFA LC CURR; STRU NUME 0 0; DEFO NO\n",
      "LC 3 DESI 3\n",
      "DEFO TYPE FULL FAC DEFA LC CURR; STRU NUME 0 0; DEFO NO\n",
      "LC 1 DESI 1\n",
      "BEAM TYPE MY\n",
      "LC 2 DESI 2\n",
      "BEAM TYPE MY\n",
      "LC 3 DESI 3\n",
      "BEAM TYPE MY\n",
      "LC 1 DESI 1\n",
      "BEAM TYPE MZ\n",
      "LC 2 DESI 2\n",
      "BEAM TYPE MZ\n",
      "LC 3 DESI 3\n",
      "BEAM TYPE MZ\n",
      "LC 1 DESI 1\n",
      "BEAM TYPE MT\n",
      "LC 2 DESI 2\n",
      "BEAM TYPE MT\n",
      "LC 3 DESI 3\n",
      "BEAM TYPE MT\n",
      "LC 1 DESI 1\n",
      "BEAM TYPE VZ\n",
      "LC 2 DESI 2\n",
      "BEAM TYPE VZ\n",
      "LC 3 DESI 3\n",
      "BEAM TYPE VZ\n",
      "LC 1 DESI 1\n",
      "BEAM TYPE VY\n",
      "LC 2 DESI 2\n",
      "BEAM TYPE VY\n",
      "LC 3 DESI 3\n",
      "BEAM TYPE VY\n",
      "LC 1 DESI 1\n",
      "BEAM TYPE  N\n",
      "LC 2 DESI 2\n",
      "BEAM TYPE  N\n",
      "LC 3 DESI 3\n",
      "BEAM TYPE  N\n",
      "END\n"
    ]

  /**
   * `new_load` of `replace_sofiload`: the two load-case definitions and the V and H
   * point loads. Its longer lines are written as two literals joined by `+`.
   */
  const NewLoadBlock: seq<string> := ActionsModule + LoadCasesModule

  const ActionsModule: seq<string> := [
      "\n",
      "PROG SOFILOAD urs:3\n",
      "HEAD EXPORT FROM DATABASE\n",
      "UNIT TYPE 5\n",
      "ACT  'G' GAMU 1.350000 1 " + "PSI0 1 1 1 PART 'G' SUP PERM TITL \"dead load\"\n",
      "ACT  'Q' GAMU 1.500000 0 " + "PSI0 0.700000 0.500000 0.300000 PART 'Q' SUP COND TITL \"variable load\"\n",
      "END\n",
      "$ Exported by SOFILOAD   " + "  Version  17.20-70\n"
    ]

  const LoadCasesModule: seq<string> := [
      "PROG SOFILOAD urs:4\n",
      "HEAD EXPORT FROM DATABASE\n",
      "UNIT TYPE 5\n",
      "GRP  1 VAL 'FULL' CS 9998\n",
      "LC   1 'G' 1 DLX 0 -1 0 TITL " + "\"Loadcase 1\"\n",
      "GRP  1 VAL 'FULL' CS 9998\n",
      "LC   2 'Q' 1 TITL \"V\"\n",
      "NODE NO 1002 TYPE PG P1 0\n",
      "GRP  1 VAL 'FULL' CS 9998\n",
      "LC   3 'Q' 1 TITL \"H\"\n",
      "NODE NO 1002 TYPE PX P1 0\n",
      "END\n"
    ]
}
