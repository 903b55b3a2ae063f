# Sequence-diagram element body

This project models `DElementBody`, the composite node of the Ballerina
sequence-diagram model. A body is a diagram node (it carries the `kind`,
`isHidden` and `location` header of its `DNode` superclass) that owns an
ordered list of child diagram nodes. The list is created empty and grows only
through `addChildDiagramElement`, which appends one node at the end.
`getChildElements` returns the current list.

Everything is in `sequence_model.dfy`, module `SequenceDiagramModel`:

- `DElementBody` is a class. `kind`, `isHidden` and `location` are `const`
  fields set by the constructor. `childElements` is a `seq<DNode>` field.
- `AddChild` models `addChildDiagramElement`. It may modify only
  `childElements`, so the header cannot change.
- `DNode` is an opaque object reference. Only its identity matters, so a
  child appended twice appears twice.
- `LineRange` is a plain value: a file name and two `LinePosition`s. No
  ordering or bounds are assumed of it.
- `Added` (one append) and `Replay` (a sequence of appends) are the
  functional specification. The lemmas about `Replay` state order,
  count, prefix and duplicate behaviour.
- `BuildBody` is a client. It builds a fresh body and appends a sequence of
  nodes with `AddChild`, as the diagram walker does. The walker itself is
  not part of this model.

## Model

| member | source | states |
|---|---|---|
| SequenceDiagramModel.DElementBody.constructor | sequence-diagram-model-generator/modules/sequence-diagram-model-generator-core/src/main/java/io/ballerina/sequencemodelgenerator/core/model/DElementBody.java:34-37 | the header fields equal the constructor arguments, and the child list is empty |
| SequenceDiagramModel.DElementBody.AddChild | sequence-diagram-model-generator/modules/sequence-diagram-model-generator-core/src/main/java/io/ballerina/sequencemodelgenerator/core/model/DElementBody.java:39-41 | the new child list is the old list with the node appended at the end; only `childElements` may change, so the header is untouched; no precondition, so it never fails |
| SequenceDiagramModel.DElementBody.GetChildElements | sequence-diagram-model-generator/modules/sequence-diagram-model-generator-core/src/main/java/io/ballerina/sequencemodelgenerator/core/model/DElementBody.java:43-45 | returns exactly the body's current child list |
| SequenceDiagramModel.Added | sequence-diagram-model-generator/modules/sequence-diagram-model-generator-core/src/main/java/io/ballerina/sequencemodelgenerator/core/model/DElementBody.java:40 | one append gives one more child, keeps every earlier child at its index, and puts the new node last |
| SequenceDiagramModel.ReplayIsConcat | sequence-diagram-model-generator/modules/sequence-diagram-model-generator-core/src/main/java/io/ballerina/sequencemodelgenerator/core/model/DElementBody.java:39-41 | a sequence of appends leaves the old children followed by the appended nodes in append order |
| SequenceDiagramModel.ReplayKeepsEarlierChildren | sequence-diagram-model-generator/modules/sequence-diagram-model-generator-core/src/main/java/io/ballerina/sequencemodelgenerator/core/model/DElementBody.java:39-41 | k appends add exactly k children, and every earlier child keeps its index |
| SequenceDiagramModel.ReplayPlacesInOrder | sequence-diagram-model-generator/modules/sequence-diagram-model-generator-core/src/main/java/io/ballerina/sequencemodelgenerator/core/model/DElementBody.java:39-41 | the j-th appended node sits at index (old count + j), so insertion order is preserved |
| SequenceDiagramModel.ReplayFromEmpty | sequence-diagram-model-generator/modules/sequence-diagram-model-generator-core/src/main/java/io/ballerina/sequencemodelgenerator/core/model/DElementBody.java:36-44 | appending n1, ..., nk to a fresh body gives exactly [n1, ..., nk] |
| SequenceDiagramModel.ReplayCompose | sequence-diagram-model-generator/modules/sequence-diagram-model-generator-core/src/main/java/io/ballerina/sequencemodelgenerator/core/model/DElementBody.java:39-41 | appending a and then b is the same as appending a + b |
| SequenceDiagramModel.ReplaySnoc | sequence-diagram-model-generator/modules/sequence-diagram-model-generator-core/src/main/java/io/ballerina/sequencemodelgenerator/core/model/DElementBody.java:39-41 | one more append after a sequence of appends is one more single-append step |
| SequenceDiagramModel.ReplayKeepsDuplicates | sequence-diagram-model-generator/modules/sequence-diagram-model-generator-core/src/main/java/io/ballerina/sequencemodelgenerator/core/model/DElementBody.java:39-41 | no deduplication and no loss: the multiset of children grows by exactly the appended nodes, with repeats counted |
| SequenceDiagramModel.BuildBody | sequence-diagram-model-generator/modules/sequence-diagram-model-generator-core/src/main/java/io/ballerina/sequencemodelgenerator/core/model/DElementBody.java:34-45 | a fresh body with the given header, after appending ns one node at a time, returns exactly ns from the getter |

## Left out

- The `DNode` and `DElement` classes are not part of this model. Child nodes are opaque references, and no invariant such as a non-empty `kind` is assumed.
- Subtyping is not modelled: in Java a `DElementBody` is itself a `DNode`. Here a child is any object, so a body can still be a child of another body.
- `io.ballerina.tools.text.LineRange` is carried as a value and has no semantics.
- `null` is not modelled. Java accepts a `null` child, kind or location; the Dafny types here are non-null.
- Aliasing is not modelled. `getChildElements` returns the mutable list itself, so a caller could change it outside `addChildDiagramElement`. The model's getter returns the current contents, and nothing else changes the list.
- The `final` list reference is not modelled as a separate object identity. The model keeps one `seq` field that only `AddChild` reassigns.
- Cycle prevention is not modelled, because the source does not check for it. A body may be appended to itself.
- The diagram walker, node classifier, symbol resolver, GraphQL model assembly, language-server plumbing and JSON serialisation are not part of this model.
